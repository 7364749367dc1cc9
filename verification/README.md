# JayOS in Dafny

This project models the parts of JayOS, a small i386 kernel, whose correctness is hard to see
from reading one function, and proves what they are for. `dafny verify dfyconfig.toml` checks
everything.

The model keeps the form of the source. Arrays, linked lists and fields that C code changes in
place are fields of classes here (`Memory`, `Allocator`, `Kernel`, `Heap`, `FileSystem`, `Drive`,
`Tty`), changed by methods with the same loops and branches. Each such class has a value that
says what its state is (`Snap`, `Units`, `tree`, `View`); methods are proved against functions or
relations on these values, and the lasting results are lemmas about whole runs of them.

| area | source | files |
|---|---|---|
| copy-on-write memory | `mm/page.c`, memory parts of `sys_fork`, `sys_exit`, `init_fork` | `Words`, `Frames`, `AddressSpaces`, `AddressSteps`, `ForkSteps`, `CopyOnWrite`, `MemoryRuns`, `ExactCounts`, `CountLeak`, `UncountedPages` |
| bucket allocator | `mm/malloc.c` | `Buckets`, `BucketSteps`, `BucketHeap` |
| both on one frame table | `mm/page.c`, `mm/malloc.c` | `SharedFrames` |
| processes, scheduler, open files | `kernel/process.c`, `kernel/schedule.c`, `fs/fs.c` | `Processes`, `ProcessTree`, `Scheduling`, `FileAccounts`, `ProcessRuns`, `KernelTables`, `StepLaws`, `ProcessLife` |
| bitmap heap | `mm/mm.c` | `BitmapHeap` |
| paths and mounts | `fs/fs.c` | `Paths`, `PathScanner`, `PathLaws` |
| formatting and scanning | `lib/stdio.c` | `Stdio`, `Printf`, `FormatLaws` |
| FAT12 | `fs/fat/fat.c` | `Fat12` |
| disk and terminal | `kernel/hd.c`, `kernel/tty.c` | `Disk`, `Terminal`, `TerminalLaws` |

Main results:

- After any run of forks, faults, stores, new pages, exits and kernel allocations in which counts
  stay true and new tables are blank, every process reads what it would read had fork copied each
  page (`MemoryRuns.RunRefinesEager`). For runs of any kind, uncounted pages and wrapped counts
  included, the first step after which somebody reads something else is exactly the first that is
  not private: a store to a frame that another entry names, or a new table over a frame that is
  not blank (`RunExact`). Up to it a process that does nothing keeps its pages (`Isolation`).
- Over a run in which counts stay true, a page's count comes to exceed its entries by exactly the
  entries that exits and new mappings drop (`ExactCounts.RunSlack`). While none are dropped, a
  write fault copies a page if and only if another entry names it, and the last sharer takes it
  over in place (`CopiesOnlyShared`, `LastSharer`).
- `kmalloc` never hands out bytes of a live block, `kfree` finds the owner of every block it is
  given under every honest size hint, and the heap's lists keep their shape
  (`BucketHeap.Allocator.Kmalloc`, `Kfree`).
- The page tables and the allocator share `mem_map`. Under any interleaving of private steps both
  stay sound, and no frame is both a process's and the heap's (`SharedFrames.RunKeeps`,
  `BlocksApart`).
- In every reachable state, with clock interrupts in user code and inside the kernel, the processes
  form a tree rooted at process 0, zombies hold nothing and wait unreaped, a death is reported once,
  and every descriptor's and inode's count is the number of file slots that lead to it
  (`ProcessRuns.RunKeeps`, `ExitThenReap`).
- What each step does to each slot is stated field by field, apart from the definitions of the calls
  (`StepLaws`). So a child stays its forker's, then process 0's, until it is reaped
  (`ProcessLife.ForkedChild`), and fork, exit and `waitpid` fit together over any run: whatever
  else happens, the wait returns the child with its status (`ForkExitWait`). An open file slot
  keeps its descriptor, inode and position until its process closes it or exits (`FileStays`).
- From the step in which a process pauses in `waitpid` until it resumes, it can run whenever a
  child it waits for is dead; for process 0 this holds of the children it had when it paused
  (`ProcessRuns.NoLostWakeUp`). An alarm rings at the first `schedule` past its tick and not before
  (`ProcessRuns.AlarmWakes`), and a process that stays runnable is picked within one round
  (`Scheduling.PickedWithin`).
- `vmalloc` takes the lowest free run and marks exactly it, through packed bytes and signed shifts.
- The one-pass path scanner is a fold of `lookup` over the components; mounts never form a cycle.
  Resolving a path with another behind it is resolving one and then the other from there
  (`PathLaws.ResolveJoined`), and `mkdir` works below a directory just made (`MkdirBelow`).
- A format prints its literal text and its fields in order (`FormatLaws.PrintPieces`), each field
  with its sign, prefix, letter case, digits and padding where they belong (`FieldParts`,
  `PaddingSide`), and scanning undoes printing for every format of literal text and integer
  conversions (`ScanUndoesFormat`; as methods, `Printf.PrintThenScan`).
- FAT12 entries are read as the FAT specification packs them, and the clusters tile the data area
  of the volume that `fat_mount` lays out (`Fat12.ClustersTile`, `SectorHasCluster`).
- A disk write changes exactly the bytes asked for. A line typed with corrections is read as meant,
  and the screen shows it and nothing behind it (`TerminalLaws.TypeLine`).

Where the code falls short of what one would expect, the exact condition is proved:

- `execve` maps program pages without counting them. A fault and the store after it stay private
  if and only if a count of 1 means one entry (`UncountedPages.FaultExact`). After an `execve` and
  a fork it does not: the first store to a program page, by parent or child, is read by the other
  (`UncountedPages.ProgramPageShared`; `CopyOnWrite.ProgramLeaksFromBoot` gets there from boot).
- A page table frame is not cleared when it is taken, and exit leaves its entries behind. A new
  table adds exactly the page it was made for if and only if its frame was otherwise blank
  (`MapTableExact`, and over runs `MemoryRuns.RunExact`). Exit makes such a frame the next one out
  (`ExitLeavesStaleTable` says when, `StaleTableNext` gives an instance).
- Sharing keeps counts at or above the number of references if and only if no 32-bit count wraps
  (`ForkCountExact`). Counts never come down when a child exits, so enough children that come and
  go bring any mapped page there (`CountLeak.TopInReach`, `ForkUntilWrap`).
- A zombie that a sleeping process 0 has adopted does not wake it (`AdoptedUnnoticed` gives the
  condition, `WakeUpMissed` an instance).
- A closed descriptor is never used again, so a run opens at most as many files as there are
  descriptors (`OpensBounded`).
- `mkdir` puts the new entry before an older one of the same name, which can hide the way to it
  (`MkdirFound` gives the condition, `MkdirLost` an instance). It resolves relative paths from the
  root, unlike `open`.
- On the last cell of a console a character is not shown, but a backspace after it takes back the
  character before: it undoes what was typed if and only if that had room (`EraseTakesBack`).
- `%d` of a negative value prints a sign that the scanner rejects, so nothing is stored.
- On a FAT12 chain that has a loop `get_sector_list` never stops: a walk ends within 4078 clusters or
  never (`EndsSoonOrNever`).
- 65525 clusters are refused at mount, though the FAT specification calls this FAT32 (`TypeAgrees`).

## Model

| member | source | states |
|---|---|---|
| Frames.GetFreePage | mm/page.c:130-143 | takes the lowest unused frame, resets its count and flags and returns its address; -1 and no change when none is free |
| Frames.FreePage | mm/page.c:146-151 | clears the frame's flags, keeping its address bits |
| Frames.TakenFree | mm/page.c:130-143 | taking a frame removes exactly it from the free ones |
| Frames.TakeRelease | mm/page.c:130-151 | a frame taken and given back is free again and is the next one out |
| CopyOnWrite.Memory.constructor | mm/mm.c:89-172 | memory after paging is set up, whatever the kernel's own directory holds, satisfies the invariant, with no user pages |
| CopyOnWrite.Memory.InitFork | kernel/start.c:599-643 | process 0 starts with exactly one zeroed stack page |
| CopyOnWrite.Memory.StartFirst | kernel/start.c:624-633 | process 0 gets its directory and kernel stack and no pages |
| CopyOnWrite.Memory.KernelEntries | kernel/start.c:624-630 | the kernel half of the directory becomes that of the kernel's own directory, the user half stays |
| CopyOnWrite.Memory.CreateDir | mm/page.c:14-18 | a fresh frame becomes a slot's directory without anybody seeing it |
| CopyOnWrite.Memory.Fork | kernel/process.c:66-171 | forking gives the child what an eager copy of every page would, and changes no other process |
| CopyOnWrite.Memory.ShareFrames | mm/page.c:47-91 | the copy and the child's kernel stack are one fork step, true counts or not |
| CopyOnWrite.Memory.ShareWith | mm/page.c:47-91 | with true counts that step is one fork of the eager machine |
| CopyOnWrite.Memory.CopyPage | mm/page.c:47-91 | the new directory is a read-only shared copy, with counts raised by exactly the shared entries |
| CopyOnWrite.Memory.CopyDirEntry | mm/page.c:51-82 | one turn of the outer loop extends the copy by one directory entry |
| CopyOnWrite.Memory.CopyEntry | mm/page.c:53-77 | a non-empty directory entry gets a fresh table with the same, now read-only, entries |
| CopyOnWrite.Memory.ClearEntry | mm/page.c:78-81 | an empty directory entry stays empty in the copy |
| CopyOnWrite.Memory.CopyTable | mm/page.c:56-76 | both tables end write-protected and equal, and each named frame's count rises by the entries naming it |
| CopyOnWrite.Memory.KernelHalf | mm/page.c:83-89 | kernel entries are those of the kernel's directory |
| CopyOnWrite.Memory.DoWpPage | mm/page.c:180-208 | the fault handler leaves every process's view unchanged and makes the page writable |
| CopyOnWrite.Memory.Unshare | mm/page.c:185-199 | a count of 1 makes the entry writable in place; otherwise the page is copied and both counts move |
| CopyOnWrite.Memory.UserWrite | mm/page.c:180-208 | a store, with its fault and retry, changes one word of one process's view and nothing else |
| CopyOnWrite.Memory.MapPage | kernel/process.c:369-370 | a new counted page takes exactly one place in one process, over whatever the entry held |
| CopyOnWrite.Memory.MapProgramPage | kernel/process.c:320-330 | a program page takes exactly one place in one process, but its count is below its entries |
| CopyOnWrite.Memory.ProgramThenFork | kernel/process.c:320-330 | after that and a fork, each process reads what the other stores to the page |
| CopyOnWrite.ProgramLeaksFromBoot | kernel/process.c:320-330 | a memory in which this has happened, reached from boot |
| CopyOnWrite.Memory.MapStackPage | kernel/start.c:640-642 | a new table and page put exactly one page in place of the table's row if and only if the table's frame was otherwise blank |
| CopyOnWrite.Memory.ClearPageTables | mm/page.c:210-226 | gives back exactly the table frames of the directory |
| CopyOnWrite.Memory.Exit | kernel/process.c:177-197 | removes exactly one address space; the freed frames are its tables and kernel stack |
| AddressSpaces.MappedFrame | mm/page.c:180-208 | a mapped page lies in a used data frame, apart from tables, directories and stacks |
| AddressSteps.FaultKeeps | mm/page.c:180-208 | the write fault keeps the invariant and changes no view |
| AddressSteps.StoreKeeps | mm/page.c:180-208 | a store through a writable entry changes one process's page alone |
| AddressSteps.MapKeeps | kernel/process.c:368-370 | mapping a page, over an entry empty or not, keeps the invariant and gives the process that page |
| AddressSteps.MapTableKeeps | kernel/start.c:640-642 | over a blank frame, mapping with a new table keeps the invariant and puts one page in place of the table's row |
| AddressSteps.MapTableExact | mm/page.c:20-26 | the new table puts exactly one page in place of its row if and only if the rest of its frame is blank |
| AddressSteps.NoRowLost | kernel/start.c:640-642 | where the directory had no table, no page is lost |
| AddressSteps.ExitKeeps | mm/page.c:210-226 | exit keeps the invariant and removes one address space |
| AddressSteps.ExitLeavesStaleTable | mm/page.c:210-226 | a table given back by exit is not blank, and is the next frame out if and only if every frame below it stays in use |
| AddressSteps.StaleTableNext | mm/page.c:130-143 | an instance: exit makes a stale table the frame that is handed out next |
| AddressSteps.KernelKeeps | mm/page.c:130-151 | what happens to frames no process has, nobody sees |
| ForkSteps.ForkKeeps | mm/page.c:47-91 | fork keeps the invariant and is an eager fork |
| ForkSteps.ForkCountExact | mm/page.c:65 | after fork every count is at least the number of entries naming its frame if and only if no count wraps |
| ForkSteps.DirKeeps | mm/page.c:14-18 | taking a directory keeps the invariant and every view |
| ForkSteps.StartKeeps | kernel/start.c:599-643 | starting a process with an empty directory adds an empty address space |
| MemoryRuns.StepKeeps | mm/page.c:47-226 | every memory operation that keeps counts true, kernel allocations included, keeps the invariant and matches the eager machine |
| MemoryRuns.RunRefinesEager | mm/page.c:47-226 | over any run whose counts stay true and whose new tables are blank, each live process reads what it would with eagerly copied, private memory |
| MemoryRuns.CleanIsPrivate | mm/page.c:180-208 | true counts make every store of such a run private |
| MemoryRuns.StepShape | mm/page.c:47-226 | private steps keep the tables well formed, whatever the counts |
| MemoryRuns.StepExact | mm/page.c:47-226 | from any well-formed memory, true counts or not, a step matches the eager machine if and only if it is private: no store to a frame another entry names, no table over a frame that is not blank |
| MemoryRuns.RunExact | mm/page.c:47-226 | any run, uncounted pages and wrapped counts included, matches the eager machine up to its first step that is not private, and not after that step |
| MemoryRuns.Isolation | mm/page.c:180-208 | a process that does nothing keeps exactly its pages as long as every step is private, whatever others do |
| MemoryRuns.ForkShows | kernel/process.c:66-171 | after a fork the child has its parent's pages, and nobody else sees a difference |
| MemoryRuns.StoreShows | mm/page.c:180-208 | a private store changes one word of one page of its own process, to what was stored |
| MemoryRuns.FaultAndExitShow | mm/page.c:180-226 | a fault shows nobody anything; an exit takes one process away and shows the others nothing |
| ExactCounts.StepSlack | mm/page.c:47-226 | a step leaves a page's count off by exactly the entries it drops more than before |
| ExactCounts.NewSlack | mm/page.c:185-199 | a frame that becomes a page has one entry and a count of 1 |
| ExactCounts.RunSlack | mm/page.c:47-226 | over a run, a page's count exceeds its entries by exactly what it did before and the entries that exits and new mappings dropped |
| ExactCounts.RunExactly | mm/page.c:47-226 | while nothing exits and nothing is mapped over a page, counts are exact |
| ExactCounts.CopiesOnlyShared | mm/page.c:185-199 | with an exact count a write fault takes a new frame if and only if another entry names the old one |
| ExactCounts.LastSharer | mm/page.c:185-199 | once one of two sharers has its copy, the other keeps the frame |
| ExactCounts.StepMarked | mm/page.c:65-66 | a page with more than one entry carries the copy-on-write mark |
| ExactCounts.StepUnmarked | mm/page.c:185-199 | a page that a process may write does not |
| CountLeak.ForkThenExit | kernel/process.c:66-199 | a child that comes and goes leaves nothing behind but counts raised by the parent's entries |
| CountLeak.ForkThenExitTimes | kernel/process.c:66-199 | `n` children raise each page's count by `n` for each entry of the parent that names it |
| CountLeak.TopInReach | mm/page.c:65 | some number of children leaves no room for another fork under a 32-bit count |
| CountLeak.NextForkWraps | mm/page.c:65 | the fork after that leaves a page with a count below its entries |
| CountLeak.ForkUntilWrap | kernel/process.c:66-199 | when no more than `n` children fit, `n` of them and one more fork leave a page with a count below its entries |
| UncountedPages.StoreExact | mm/page.c:180-208 | a store is seen by its own process alone if and only if no other entry names the frame or the word was there already |
| UncountedPages.FaultExact | mm/page.c:185-199 | the fault and the retried store are private if and only if a count of 1 means one entry |
| UncountedPages.BareMapViews | kernel/process.c:327 | an uncounted page looks like any other to its process |
| UncountedPages.ForkedBare | mm/page.c:65 | after a fork an uncounted page has two entries and a count of 1 |
| UncountedPages.ProgramPageShared | kernel/process.c:320-330 | after `execve` and fork, the first store to a program page by either process is read by the other |
| Buckets.LiveApart | mm/malloc.c:165-172 | distinct live blocks share no byte |
| BucketHeap.Allocator.constructor | mm/malloc.c:62-77 | the heap starts sound and with no live block |
| BucketHeap.Allocator.InitBucketDesc | mm/malloc.c:84-105 | carves a page into spare descriptors, keeping live blocks and chains |
| BucketHeap.Allocator.FillDescPage | mm/malloc.c:90-104 | the page's descriptors are linked in order in front of the old spare list |
| BucketHeap.Allocator.ChainDescs | mm/malloc.c:94-97 | the loop that links a page of descriptors |
| BucketHeap.Allocator.Carve | mm/malloc.c:165-172 | threads the page's objects into a list from first to last |
| BucketHeap.Allocator.NewBucket | mm/malloc.c:143-175 | adds a page of free objects to a bucket, keeping every live block |
| BucketHeap.Allocator.FillBucket | mm/malloc.c:152-174 | moves a spare descriptor to the head of its chain with a fresh page |
| BucketHeap.Allocator.FindRoom | mm/malloc.c:137-139 | the first descriptor of a chain with a free object, none only when all are full |
| BucketHeap.Allocator.Kmalloc | mm/malloc.c:110-184 | a block of at least `len` bytes that overlaps no live block; more than a page is refused |
| BucketHeap.Allocator.TakeSlot | mm/malloc.c:178-183 | exactly that object becomes a live block |
| BucketHeap.Allocator.SearchChain | mm/malloc.c:210-214 | the descriptor of the page, with its predecessor, or none in this chain |
| BucketHeap.Allocator.FindPage | mm/malloc.c:203-217 | the owner is found under every hint up to the block's bucket size, 0 included, and only then |
| BucketHeap.Allocator.ReturnPage | mm/malloc.c:226-252 | the descriptor leaves its chain for the spare list and its page is freed |
| BucketHeap.Allocator.Release | mm/malloc.c:222-252 | the free, with the return of a page that became empty |
| BucketHeap.Allocator.Kfree | mm/malloc.c:194-256 | exactly the given block stops being live, and its page is returned exactly with its last object |
| BucketHeap.Allocator.Store | mm/malloc.c:178-183 | bytes stored inside a live block, however many, disturb neither the heap nor other blocks |
| BucketHeap.Allocator.OthersTake | mm/page.c:130-143 | a frame handed to the page tables leaves the heap and its live blocks alone |
| BucketHeap.Allocator.OthersRelease | mm/page.c:146-151 | so does a frame they give back |
| BucketSteps.TakeKeeps | mm/malloc.c:178-180 | taking an object keeps the heap shape and adds one live block |
| BucketSteps.PutKeeps | mm/malloc.c:222-224 | returning an object keeps the shape and removes one live block |
| BucketSteps.NewKeeps | mm/malloc.c:152-174 | a new bucket page keeps the shape and the live blocks |
| BucketSteps.InitKeeps | mm/malloc.c:84-105 | a new descriptor page keeps the shape and the live blocks |
| BucketSteps.ReturnKeeps | mm/malloc.c:226-252 | returning an empty page keeps the shape and the live blocks |
| BucketSteps.FreeKeeps | mm/malloc.c:222-252 | the whole free keeps the shape and removes one live block |
| BucketSteps.UserStore | mm/malloc.c:178-183 | bytes stored inside a live block touch no free list's pointers and keep the shape |
| BucketSteps.CountZero | mm/malloc.c:224-226 | a reference count of zero means that every object of the page is in the free list |
| BucketSteps.OthersKeep | mm/page.c:130-151 | whatever happens to frames that are not the heap's, it stays sound with the same live blocks |
| SharedFrames.KernelFrameKept | mm/page.c:47-226 | no step of the page tables moves, counts or frees a kernel frame |
| SharedFrames.HeapFrames | mm/malloc.c:84-252 | a step of the allocator takes free frames, gives back its own and touches no others |
| SharedFrames.PagesJoined | mm/page.c:47-226 | a step of the page tables keeps both sides sound and every live block |
| SharedFrames.HeapJoined | mm/malloc.c:84-252 | a step of the allocator keeps both sides sound and every process's view |
| SharedFrames.StartJoined | mm/malloc.c:62-77 | any well-formed memory and the empty heap are a world to start from |
| SharedFrames.RunKeeps | mm/malloc.c:84-252 | over any interleaving of private steps processes see private memory and exactly the blocks handed out and not returned are live |
| SharedFrames.BlocksApart | mm/page.c:130-143 | no live block lies in a frame that holds a process's page |
| KernelTables.Kernel.constructor | kernel/start.c:147-175 | the boot tables satisfy every invariant |
| KernelTables.Kernel.WakePass | kernel/schedule.c:34-47 | alarms that are due signal, signalled sleepers run, all else is unchanged |
| KernelTables.Kernel.Schedule | kernel/schedule.c:19-66 | nothing inside the kernel's own interrupts; otherwise the wake pass and the next runnable slot |
| KernelTables.Kernel.ClockHandler | kernel/start.c:561-577 | a tick in user code is one scheduling step; one inside the kernel is a step that only counts the tick |
| KernelTables.Kernel.SysPause | kernel/schedule.c:68-73 | one pause step of the machine |
| KernelTables.Kernel.SysAlarm | kernel/schedule.c:75-79 | one alarm step; returns its argument |
| KernelTables.Kernel.FindFreeSlot | kernel/process.c:69-74 | the first free slot, none only when all are in use |
| KernelTables.Kernel.CountUp | kernel/process.c:160-166 | both counts behind every open slot rise by the slots leading to them |
| KernelTables.Kernel.SysFork | kernel/process.c:66-175 | -1 exactly when the table is full, otherwise one fork step, which `StepLaws.ForkLaw` spells out |
| KernelTables.Kernel.CloseAll | kernel/process.c:187-192 | every slot closed, every count lowered by the slots that led to it |
| KernelTables.Kernel.Orphan | kernel/process.c:181-186 | children pass to process 0, nobody else moves |
| KernelTables.Kernel.SysExit | kernel/process.c:177-199 | one exit step, up to the switch to another process |
| KernelTables.Kernel.Scan | kernel/process.c:215-230 | reaps the first dead child that matches, and tells whether any child matched |
| KernelTables.Kernel.Sleep | kernel/process.c:235 | one blocking step of a waiter that found a child but no dead one |
| KernelTables.Kernel.SysWaitpid | kernel/process.c:211-242 | reaps, reports no dead child, sleeps or reports no child, each exactly when due |
| KernelTables.Kernel.ResumeWaitpid | kernel/process.c:236-239 | interrupted exactly when a signal other than SIGCHLD is pending, which stays pending; otherwise a new scan, which reaps the first dead child there is and still finds a child if none is dead |
| KernelTables.Kernel.FindFreeFd | fs/fs.c:51-56 | the first free file slot, none only when all are taken |
| KernelTables.Kernel.FindFreeDesc | fs/fs.c:63-67 | the first descriptor never used, none only when all were |
| KernelTables.Kernel.SysOpen | fs/fs.c:47-99 | -1 exactly when no slot, no descriptor or no file; otherwise one open step into the lowest free slot |
| KernelTables.Kernel.SysClose | fs/fs.c:181-188 | one close step |
| KernelTables.Kernel.SysDup | fs/fs.c:741-762 | -1 exactly when no slot is free; otherwise one dup step into the lowest free slot, which `StepLaws.DupLaw` spells out |
| KernelTables.MovedOne | kernel/process.c:160-166 | the loop's next slot moves exactly the two counts behind it |
| ProcessTree.ScheduleKeeps | kernel/schedule.c:33-59 | scheduling keeps the process table sound and picks a running process |
| ProcessTree.NextExists | kernel/schedule.c:48-59 | the selection loop ends exactly when some slot is runnable |
| ProcessTree.NextFinds | kernel/schedule.c:48-59 | the slot picked is the first runnable one in cyclic order |
| ProcessTree.ForkKeeps | kernel/process.c:69-90 | the child hangs below its parent and the tree stays a tree |
| ProcessTree.ExitParent | kernel/process.c:194-197 | the parent that exit sets running is in use, no zombie, and not the process itself |
| ProcessTree.ExitKeeps | kernel/process.c:177-197 | exit keeps the tree, leaves a zombie with its status modulo 256, and its parent can run |
| ProcessTree.ReapKeeps | kernel/process.c:219-227 | reaping removes a leaf |
| ProcessTree.BlockKeeps | kernel/process.c:231-235 | a waiter goes to sleep with a child to wait for, and none dead |
| ProcessTree.ResumeKeeps | kernel/process.c:236-237 | leaving the pause keeps the table sound |
| ProcessTree.StillHasChild | kernel/process.c:213-237 | a waiter that resumes still has a child to wait for, so the flag kept from before is harmless |
| ProcessTree.DeadWakesWaiter | kernel/process.c:195-240 | in a sound table a waiter with a dead child that it waits for can run |
| ProcessTree.AdoptedUnnoticed | kernel/process.c:181-197 | an exit leaves process 0 asleep beside a dead child it waits for if and only if the exiting process's parent is another, no signal or due alarm wakes process 0, and it has adopted or now adopts such a zombie |
| ProcessTree.WakeUpMissed | kernel/process.c:181-197 | an instance in which that happens |
| Scheduling.PicksFirst | kernel/schedule.c:48-59 | no runnable slot is nearer in the cycle than the one picked |
| Scheduling.NearerStep | kernel/schedule.c:48-59 | a step that schedules runs a given runnable process or brings its turn nearer |
| Scheduling.PickedWithin | kernel/schedule.c:48-59 | over a run, a process that stays runnable is picked before `schedule` has run once for each slot |
| FileAccounts.OpenKeeps | fs/fs.c:47-99 | open keeps both levels of counts equal to the slots leading to them |
| FileAccounts.DupKeeps | fs/fs.c:741-762 | dup keeps both levels of counts |
| FileAccounts.CloseKeeps | fs/fs.c:181-188 | close keeps both levels of counts |
| FileAccounts.ForkKeepsFiles | kernel/process.c:160-167 | inheriting a file table keeps both levels of counts |
| FileAccounts.ExitKeepsFiles | kernel/process.c:187-192 | closing everything at exit keeps both levels of counts |
| ProcessRuns.StepKeepsTree | kernel/process.c:66-242 | every step keeps the tree, the zombies and the waiters sound |
| ProcessRuns.StepKeepsFiles | fs/fs.c:47-188 | every step keeps the counts |
| ProcessRuns.RunKeeps | kernel/process.c:66-242 | tree and counts are sound in every reachable state |
| ProcessRuns.ZombieStep | kernel/process.c:219-227 | a step leaves a zombie as it is and does not run it, unless its parent reaps it |
| ProcessRuns.ZombieRun | kernel/process.c:193-227 | an unreaped zombie never runs, keeps its status, and no fork takes its slot |
| ProcessRuns.ExitThenReap | kernel/process.c:177-227 | the status reported is the exit status modulo 256, to the parent, once |
| ProcessRuns.WaitRun | kernel/process.c:231-240 | over a run, a waiter that has not resumed still waits for the children it had |
| ProcessRuns.NoLostWakeUp | kernel/process.c:194-240 | over a run, from the pause on, a waiter one of whose awaited children is dead can run |
| ProcessRuns.AlarmWakes | kernel/schedule.c:37-46 | over a run, an alarm rings at the first schedule past its tick and not before, and a sleeper can run then; one that wraps to 0 is off |
| ProcessRuns.OpensBounded | fs/fs.c:63-72 | opens plus descriptors never used stay constant over a run |
| StepLaws.TicksLaw | kernel/start.c:561-577 | a clock interrupt adds one tick, starting over before the top; nothing else touches the count |
| StepLaws.CurrentLaw | kernel/schedule.c:48-66 | the processor changes hands only where `schedule` runs, and goes to a process that can run |
| StepLaws.UseLaw | kernel/process.c:66-227 | a slot comes into use by a fork and goes out of use by being reaped |
| StepLaws.ParentLaw | kernel/process.c:181-186 | a process keeps its parent until that one exits, and then has process 0 |
| StepLaws.SignalLaw | kernel/schedule.c:37-46 | signals come from a ringing alarm and a child's exit only, and go when a wait ends, and only SIGCHLD |
| StepLaws.AlarmLaw | kernel/schedule.c:37-79 | an alarm is what its process set last, 0 if it asked for 0 seconds, until it rings |
| StepLaws.StatusLaw | kernel/schedule.c:41-73 | a pausing process can be interrupted, `schedule` makes it run exactly when a signal is pending, and only an exit makes a zombie and wakes a parent |
| StepLaws.RestLaw | kernel/process.c:193-237 | an exit code is the exit status modulo 256; a wait is remembered with its children and ends when it resumes |
| StepLaws.ForkLaw | kernel/process.c:66-175 | a fork makes a running child of the caller, with the caller's files, signals and alarm, in a slot that was free; nobody else changes |
| StepLaws.ReapLaw | kernel/process.c:215-227 | reaping takes the first dead child asked for out of the table, and changes nobody else |
| StepLaws.ResumeLaw | kernel/process.c:236-237 | leaving the pause drops SIGCHLD and no other signal |
| StepLaws.FilesLaw | fs/fs.c:47-188 | open and dup fill an empty file slot, close empties one, exit empties all, and nothing else touches any |
| StepLaws.DescLaw | fs/fs.c:63-99 | a descriptor's inode and position are set by the open that takes it and by no other call modelled |
| StepLaws.DupLaw | fs/fs.c:741-762 | the new slot names the old slot's descriptor, two counts rise by one, all else stays |
| StepLaws.DupThenClose | fs/fs.c:741-762 | closing the old slot then leaves the new one open on the same descriptor and every count as it was |
| StepLaws.OpenLaw | fs/fs.c:47-99 | the slot opened names a descriptor nobody else has, on the inode, at position 0 |
| StepLaws.CloseLaw | fs/fs.c:181-188 | closing empties the slot and lowers the two counts behind it by one |
| ProcessLife.ForkedChild | kernel/process.c:66-227 | over a run, a forked child is its forker's child until that exits, then process 0's, until it is reaped |
| ProcessLife.ChildDead | kernel/process.c:177-227 | a child that exited is found dead by its parent, with its status modulo 256, until it is reaped or the parent exits |
| ProcessLife.DeadIsReaped | kernel/process.c:211-230 | a scan beside a dead child that it waits for reaps the first there is |
| ProcessLife.ChildReported | kernel/process.c:177-242 | whatever wait the parent of a dead child calls for it or for any, it reaps; for that child, it returns that child and its status |
| ProcessLife.WaitReturns | kernel/process.c:231-240 | a waiter that resumes beside an awaited dead child keeps its other signals, and its scan reaps the first dead one |
| ProcessLife.ForkExitWait | kernel/process.c:66-242 | over a run, fork, wait and the child's exit end in the wait returning that child with its status, unless another signal interrupts |
| ProcessLife.SleepStep | kernel/schedule.c:41-73 | a step leaves a sleeper asleep exactly when it does not run `schedule` with a signal of its pending |
| ProcessLife.PauseEnds | kernel/schedule.c:41-73 | over a run, a paused process does not run before the first `schedule` that finds a signal of its, and can run after that one |
| ProcessLife.AlarmOff | kernel/schedule.c:75-79 | over a run, no SIGALRM comes after `alarm(0)` until another alarm is set |
| ProcessLife.FileStays | fs/fs.c:47-188 | over a run, an open file slot keeps its descriptor, inode and position until its process closes it or exits |
| ProcessLife.TicksRun | kernel/start.c:561-577 | over a run, `ticks` counts the clock interrupts modulo 2^32 - 1 |
| BitmapHeap.MarkedBit | mm/mm.c:204-206 | the shifts and masks set one bit of a byte, whatever its sign |
| BitmapHeap.ClearedBit | mm/mm.c:224-228 | the shifts and masks clear one bit of a byte, whatever its sign |
| BitmapHeap.TestedUnit | mm/mm.c:186-189 | the bit tested is the unit's |
| BitmapHeap.MarkedUnit | mm/mm.c:203-206 | rewriting a byte marks exactly one unit of the map |
| BitmapHeap.ClearedUnit | mm/mm.c:223-228 | rewriting a byte clears exactly one unit of the map |
| BitmapHeap.Heap.constructor | mm/mm.c:22-44 | the map starts clear |
| BitmapHeap.Heap.Search | mm/mm.c:180-200 | the lowest run of free units; for size 0, the unit behind the first used one |
| BitmapHeap.Heap.Vmalloc | mm/mm.c:174-215 | the address of the lowest free run, exactly it marked; too large sizes are refused |
| BitmapHeap.Heap.Vfree | mm/mm.c:217-230 | exactly the given range becomes free |
| BitmapHeap.AllocKeeps | mm/mm.c:174-215 | an allocation overlaps no live block and keeps the map equal to what live blocks cover |
| BitmapHeap.FreeKeeps | mm/mm.c:217-230 | freeing a live block clears exactly what it covered |
| BitmapHeap.RunKeeps | mm/mm.c:174-230 | over any run live blocks stay apart and the map marks exactly them |
| BitmapHeap.AllocThenFree | mm/mm.c:174-230 | allocating and freeing restores the map, and the next request is served from the same place |
| Paths.Uncovered | fs/fs.c:625-633 | an entry found by name is never mounted over |
| Paths.UpUndoesDown | fs/fs.c:607-611 | ".." undoes a step down exactly when the child is not a mount point |
| Paths.JoinSplit | fs/fs.c:574-592 | joining the components with slashes gives the text back, and none holds a slash |
| Paths.SplitJoin | fs/fs.c:574-592 | splitting a joined list of names gives the names back |
| Paths.WalkSteps | fs/fs.c:574-592 | walking two lists of components is walking one after the other |
| Paths.StaysSkipped | fs/fs.c:602-616 | empty and "." components never change where a walk leads |
| Paths.SameMoves | fs/fs.c:553-679 | paths that differ only in empty and "." components resolve alike |
| Paths.MadeOk | fs/fs.c:474-489 | mkdir keeps the tree sound |
| Paths.MadeLookup | fs/fs.c:479-489 | mkdir changes only look-ups of that name in that directory, which give the new entry |
| Paths.MadeWalk | fs/fs.c:420-492 | walks that do not ask that directory for that name lead where they led |
| Paths.MkdirFound | fs/fs.c:420-492 | the path made resolves to the new entry if and only if its last component is an ordinary name and the way is not lost in the new directory |
| Paths.MkdirFresh | fs/fs.c:420-492 | a name its directory did not have resolves to the new entry |
| Paths.MkdirLost | include/system/list.h:64-77 | an instance in which the new entry hides the way to itself |
| Paths.MountOk | fs/fs.c:542-548 | mounting keeps the tree sound, mounts leading strictly forward |
| Paths.MountCovers | fs/fs.c:542-548 | a mount changes exactly the look-ups by name that gave the directory, to the new root |
| Paths.MountFound | fs/fs.c:494-551 | a path to the directory by name leads to the new root |
| Paths.RunOk | fs/fs.c:544-546 | in every reachable tree following mounts ends |
| PathScanner.FileSystem.constructor | fs/fs.c:362-375 | the root alone is a sound tree |
| PathScanner.FileSystem.Follow | fs/fs.c:627-630 | the mount-following loop ends at the entry not mounted over |
| PathScanner.FileSystem.LookupIn | fs/fs.c:600-655 | one component looked up as in the fold |
| PathScanner.FileSystem.ScanName | fs/fs.c:576-580 | the component up to the next slash or the end |
| PathScanner.FileSystem.Enter | fs/fs.c:586-591 | one component of several taken, as the fold takes it |
| PathScanner.FileSystem.Descend | fs/fs.c:574-592 | the loop folds look-up over all components but the last |
| PathScanner.FileSystem.GetParentDirEntry | fs/fs.c:553-598 | the directory of the last component, from root or base, and that component |
| PathScanner.FileSystem.Namei | fs/fs.c:657-684 | resolution of a path is the fold over its components |
| PathScanner.FileSystem.SysMkdir | fs/fs.c:420-492 | makes the entry under the resolved parent, or fails without change when there is none or it is no directory |
| PathScanner.FileSystem.Attach | fs/fs.c:542-548 | a fresh root covers exactly that directory |
| PathScanner.FileSystem.SysMount | fs/fs.c:494-551 | mounts exactly when type, device and an unmounted directory are found, else no change |
| PathLaws.CompsJoined | fs/fs.c:574-592 | the components of a path with another behind it are those of the one, then of the other |
| PathLaws.ResolveJoined | fs/fs.c:553-598 | resolving a path with another behind it is resolving the one, and the other from there |
| PathLaws.ResolveName | fs/fs.c:657-681 | a single name resolves from a directory as it is looked up there |
| PathLaws.AbsoluteAnywhere | fs/fs.c:565-569 | an absolute path leads to the same place from everywhere |
| PathLaws.DotsBehind | fs/fs.c:600-616 | "/." and "/" behind a path change nothing; "/.." leads to the parent |
| PathLaws.MkdirBelow | fs/fs.c:420-492 | a directory just made under a fresh name is an empty directory that its path and paths through it lead to |
| PathLaws.MakeNested | fs/fs.c:420-492 | so a second `mkdir` below it succeeds and is found |
| PathLaws.RunModes | fs/fs.c:474-477 | every entry that `mkdir` and `mount` make is a directory |
| Stdio.FieldWidth | lib/stdio.c:45-82 | a field is as wide as asked for or as its text needs |
| Stdio.DigitsValue | lib/stdio.c:55-59 | digits, also after zeros, are worth the number |
| Stdio.SignedValue | lib/stdio.c:46-59 | sign and digits are worth the two's complement value, the least integer included |
| Stdio.BodyBack | lib/stdio.c:34-84 | the scanner reads back any number written without a sign, under any precision, prefix and zero padding |
| Stdio.TokenBack | lib/stdio.c:123-171 | a plain conversion reads back its value; a minus sign is rejected |
| Stdio.PrintFormat | lib/stdio.c:385-526 | printing a spaced list of conversions gives the spaced list of numbers |
| Stdio.ScanWords | lib/stdio.c:301-383 | scanning takes one word per conversion |
| Stdio.ScanUndoesPrint | lib/stdio.c:301-526 | scan undoes print for any %u %x %o %d list, the count being the number of conversions; a negative %d stores nothing |
| Stdio.SpacedFits | lib/stdio.c:358-363 | a printed list fits the scanner's buffer if and only if each word does, however long the list |
| Printf.Fill | lib/stdio.c:62-64 | a padding loop writes exactly the padding left |
| Printf.DigitBuffer | lib/stdio.c:55-59 | the digits, last first, never overflow the buffer |
| Printf.CopyBack | lib/stdio.c:79-80 | the buffer is written in reading order |
| Printf.Lay | lib/stdio.c:62-82 | spaces, sign, prefix, zeros, digits and spaces, in that order |
| Printf.Available | lib/stdio.c:51-54 | the room that sign and prefix leave |
| Printf.Number | lib/stdio.c:34-84 | the field of a number for every base, width, precision and flags; none for other bases |
| Stdio.FlagsMeaning | lib/stdio.c:406-416 | a flag is set if and only if its character stands before the first character that is no flag |
| Stdio.NumberBack | lib/stdio.c:12-19 | a number written in decimal is read back, and reading stops behind it |
| Stdio.SpecBack | lib/stdio.c:406-450 | flags, width and precision written in front of a conversion are read back |
| Printf.ParseFlags | lib/stdio.c:406-416 | the flags in front of a conversion |
| Printf.SkipAtoi | lib/stdio.c:12-19 | the decimal number at the head of a text |
| Printf.ParseSpec | lib/stdio.c:406-450 | flags, width and precision of a conversion |
| Printf.Vsprintf | lib/stdio.c:385-526 | the text of the format with its integer conversions filled in, which `FormatLaws.PrintPieces` takes apart, and its length |
| Printf.ReadDigits | lib/stdio.c:153-170 | the value of the digits, none at the first character that is no digit of the base |
| Printf.ReadNumber | lib/stdio.c:123-171 | prefix, dotted halves and digits, with every failure |
| Printf.ReadUnmarked | lib/stdio.c:134-171 | dotted halves and digits once the base is known |
| Printf.SkipSpaces | lib/stdio.c:347-348 | spaces skipped |
| Printf.Strcspn | lib/string.c:24-38 | the length of the word at the head of a text |
| Printf.ReadConversion | lib/stdio.c:346-368 | one word that fits the buffer, read in the base of its conversion |
| Printf.Vsscanf | lib/stdio.c:301-383 | everything stored through the arguments, in order, and the count |
| Printf.PrintThenScan | lib/stdio.c:301-526 | what is printed is read back, for lists of any length |
| FormatLaws.LetterCase | lib/stdio.c:38-41 | %x writes lower-case letters and %X upper-case ones |
| FormatLaws.FieldParts | lib/stdio.c:46-80 | a field is the sign its flags ask for, the prefix, and digits worth the number: at least `precision` of them, more only when needed |
| FormatLaws.PaddingSide | lib/stdio.c:62-82 | padding is spaces behind with '-', zeros between prefix and digits with '0' alone, else spaces in front |
| FormatLaws.PrintLiteral | lib/stdio.c:400-404 | text without '%' is printed as it stands |
| FormatLaws.ConvRead | lib/stdio.c:406-450 | any flags, width and precision, also a bare '.', in front of a conversion are read back |
| FormatLaws.PrintConv | lib/stdio.c:406-507 | a conversion prints the next argument in the base and with the flags of its letter; none is printed when the arguments run out |
| FormatLaws.PrintPieces | lib/stdio.c:385-526 | a whole format prints its literal text and its fields in order |
| FormatLaws.ScanLiteral | lib/stdio.c:373-380 | literal text that matches is skipped |
| FormatLaws.ScanMismatch | lib/stdio.c:373-380 | literal text that does not match, or finds the input empty, ends the scan |
| FormatLaws.ScanNumber | lib/stdio.c:346-368 | %d and %u read base 10, %x 16, %o 8 and %b 2 |
| FormatLaws.DigitMeaning | lib/stdio.c:155-162 | the sixteen hexadecimal digits in either case have their values, and no other character has one; widths are read from the first ten |
| FormatLaws.ReadIfDigits | lib/stdio.c:153-170 | a number is read if and only if every character is a digit of its base |
| FormatLaws.DottedHalves | lib/stdio.c:129-151 | two hexadecimal halves joined by '.' are read as high and low 16 bits |
| FormatLaws.HalvesExact | lib/stdio.c:134-148 | hexadecimal digits on both sides of a '.' are read if and only if there are at most 19 before it |
| FormatLaws.ScanUndoesFormat | lib/stdio.c:301-526 | what any format of literal text and %u %x %o %d prints, it reads back |
| Fat12.BitOffset | fs/fat/fat.c:292-295 | the bit arithmetic gives the sector and byte of the entry's offset |
| Fat12.ReadFat12Entry | fs/fat/fat.c:287-326 | the entry of the FAT specification, also across a sector boundary |
| Fat12.ReadsPacked | fs/fat/fat.c:287-326 | entry n of any packed table is what is read for n |
| Fat12.Masks | fs/fat/fat.c:249-257 | what the end, bad and reserved masks say about an entry |
| Fat12.ChainDistinct | fs/fat/fat.c:249-282 | a chain that reaches a mark passes no cluster twice |
| Fat12.SectorsApart | fs/fat/fat.c:258 | the clusters of a chain have disjoint sectors in the data area |
| Fat12.GetSectorList | fs/fat/fat.c:236-285 | the first sectors of a chain's clusters in order, cluster 2 at the start of the data area and each cluster right behind the one before it; -1 exactly for a bad-cluster mark |
| Fat12.EndsSoonOrNever | fs/fat/fat.c:249-282 | a chain that ends has at most 4078 clusters, and a walk that passes more goes round for ever |
| Fat12.ClustersTile | fs/fat/fat.c:258 | cluster 2 begins the data area, and cluster c + 1 lies right behind cluster c |
| Fat12.ClusterInside | fs/fat/fat.c:111-117 | every cluster of the mounted volume lies between the data area's start and the volume's end |
| Fat12.SectorHasCluster | fs/fat/fat.c:111-117 | every sector that clusters take up belongs to exactly one, and less than a cluster is left over |
| Fat12.OneField | fs/fat/fat.c:78-79 | a volume that fills in one of two size fields is read by that one |
| Fat12.ComputeLayout | fs/fat/fat.c:75-117 | tables, root directory and data follow each other without gaps, rounded up to sectors |
| Fat12.EntryInTable | fs/fat/fat.c:105-111 | an entry of the first table lies before the root directory |
| Fat12.TypeAgrees | fs/fat/fat.c:119-135 | the table type agrees with the specification except at 65525 clusters |
| Disk.OverwrittenTwice | kernel/hd.c:232-238 | consecutive sectors written one by one are one write |
| Disk.WrittenBack | kernel/hd.c:385-391 | writing back a changed stretch changes just what was changed |
| Disk.NextChunk | kernel/hd.c:223-236 | each sector written is the next of the padded data |
| Disk.Drive.DoWrite | kernel/hd.c:220-244 | one more sector, or completion exactly when all are out |
| Disk.Drive.FillBuffer | kernel/hd.c:232-233 | the sector's data filled up with zeros |
| Disk.Drive.WriteSectors | kernel/hd.c:153-287 | exactly ceil(bytes/512) sectors go out, zero-padded, and the request completes once |
| Disk.Drive.ReadSectors | kernel/hd.c:186-217 | reads exactly the bytes asked for, leaving the medium and the rest of the buffer alone |
| Disk.Drive.ReadOne | kernel/hd.c:192-195 | one sector, as much of it as is wanted |
| Disk.Drive.UpdateSectors | kernel/hd.c:387-391 | read, replace and write back changes exactly the replaced bytes |
| Disk.Drive.DevDoWrite | kernel/hd.c:383-394 | bytes [pos, pos + n) of the partition are replaced and no others |
| Terminal.Settled | kernel/tty.c:226-230 | the scroll loop ends with the cursor in the window |
| Terminal.Out | kernel/tty.c:198-233 | after each character the cursor is in its console and window, and other consoles' cells are untouched |
| Terminal.NewlineMoves | kernel/tty.c:202-209 | a newline goes to the start of the next line, and stays put at the end of the console |
| Terminal.EditedInParts | kernel/tty.c:138-176 | keys that arrive later continue the line |
| Terminal.OutInParts | kernel/tty.c:178-196 | writing two texts is writing one after the other |
| Terminal.EchoShows | kernel/tty.c:151-170 | while there is room, the screen shows the edited line before the cursor |
| Terminal.ShowsOne | kernel/tty.c:159-170 | one key echoed keeps the line on the screen before the cursor |
| Terminal.RingPush | kernel/tty.c:83-92 | a key put at the head is last in the queue |
| Terminal.RingPop | kernel/tty.c:146-151 | the key at the tail is first in the queue |
| Terminal.Tty.constructor | kernel/tty.c:46-64 | an empty queue and a console in its third of video memory |
| Terminal.Tty.Input | kernel/tty.c:66-95 | a key goes to the end of the queue, and is lost exactly when it is full or the key is extended |
| Terminal.Tty.Take | kernel/tty.c:146-151 | the oldest key leaves the queue |
| Terminal.Tty.OutChar | kernel/tty.c:198-233 | the character, and the window that follows it |
| Terminal.Tty.Output | kernel/tty.c:97-110 | moves one key from the queue to the console |
| Terminal.Tty.Write | kernel/tty.c:178-196 | writes every character in order |
| Terminal.Tty.Echo | kernel/tty.c:159-170 | a key edits the line and is echoed, except a backspace at the start |
| Terminal.Tty.ReadLine | kernel/tty.c:138-176 | takes keys through the first newline and returns the edited line, the rest of the queue intact |
| TerminalLaws.StaysBlank | kernel/tty.c:198-233 | whatever is written and taken back, nothing is left standing behind the cursor |
| TerminalLaws.EraseTakesBack | kernel/tty.c:210-224 | a backspace takes back the character before it and blanks its cell if and only if that character had room; at the end of the console it takes back the one before |
| TerminalLaws.EditsMeant | kernel/tty.c:66-95 | the queued keys edit a line as the keys mean: characters added, Erase taking the last back |
| TerminalLaws.TypeKeys | kernel/tty.c:66-95 | keys typed are queued in order, Enter as a newline |
| TerminalLaws.LineShown | kernel/tty.c:151-224 | after the line is entered its cells show it and are blank behind it |
| TerminalLaws.TypeLine | kernel/tty.c:66-176 | a line typed with corrections is read as meant and is what the screen shows |

## Left out

- CopyOnWrite.Memory.Fork: requires enough free frames and counts that do not wrap; `get_free_page` returns -1 when memory is out and its callers use it as an address. `ForkSteps.ForkCountExact` says exactly when counts stay sound.
- CopyOnWrite.Memory.ShareWith: the same free frames and counts as `Fork`.
- CopyOnWrite.Memory.CopyPage: a free frame for each table to copy, as for `Fork`.
- CopyOnWrite.Memory.CreateDir: a free frame, as for `Fork`.
- CopyOnWrite.Memory.DoWpPage: a free frame when the page is shared, as for `Fork`.
- CopyOnWrite.Memory.UserWrite: a free frame when the page is shared, as for `Fork`.
- CopyOnWrite.Memory.MapPage: a free frame, as for `Fork`.
- CopyOnWrite.Memory.MapProgramPage: a free frame, as for `Fork`; one page of the loop, in a table that exists.
- CopyOnWrite.Memory.ShareFrames: the free frames of `Fork`.
- CopyOnWrite.Memory.ProgramThenFork: the same free frames, and a child slot with a directory.
- CopyOnWrite.Memory.MapStackPage: two free frames, as for `Fork`. At kernel/process.c:368 the entry is always occupied, by a table that `clear_page_tables` has just freed; the model replaces a row whose table is still the process's own.
- CopyOnWrite.Memory.StartFirst: the user half of process 0's directory is blank at boot, and a frame is free.
- CopyOnWrite.Memory.InitFork: the free frames are blank at boot, and there are four.
- MemoryRuns.RunRefinesEager: runs whose counts stay true and whose new tables are blank; `MemoryRuns.RunExact` is about all others.
- ExactCounts.RunSlack: runs whose counts stay true, as for `MemoryRuns.RunRefinesEager`; a page that `execve` maps is never counted at all.
- MemoryRuns.Isolation: up to the first step that is not private, which `MemoryRuns.RunExact` shows to be the first that somebody sees.
- MemoryRuns.StepKeeps: `sys_execve` keeps directory entries to freed tables until it overwrites them, which is not modelled, and creates a table for each program segment, which is `MapTable` only with a counted page. `do_no_page`, the TLB and stores by the kernel itself to user pages are not modelled either.
- SharedFrames.RunKeeps: private steps, as for `MemoryRuns.RunExact`. The contents of heap pages are pointer-sized words on the allocator's side and arbitrary to the page tables.
- CountLeak.ForkThenExit: the child's slot was used before and has a directory, so that no frame is taken for one.
- CountLeak.ForkThenExitTimes: the same.
- CountLeak.ForkUntilWrap: the same.
- BucketHeap.Allocator.Kmalloc: `panic` is an empty result; a free frame is required when a page is needed. The re-search of `prev` in `kfree` is left out, since with interrupts off it never runs.
- BucketHeap.Allocator.Kfree: the block must be live, as the caller holds it; a wrong address makes the source panic or corrupt a list.
- KernelTables.Kernel.Schedule: some process must be runnable, or the source's loop never ends. Switching stacks and loading page directories are not modelled.
- KernelTables.Kernel.ClockHandler: for a tick in user code some process must be runnable, as for `Schedule`; `ProcessTree.NextExists` shows that the loop ends exactly then. A tick inside a call is a step before or after it, since only `schedule` and `alarm` read the clock.
- KernelTables.Kernel.SysPause: some other process must be runnable, as for `Schedule`.
- KernelTables.Kernel.Sleep: some other process must be runnable, as for `Schedule`.
- KernelTables.Kernel.SysWaitpid: if it sleeps, some other process must be runnable, as for `Schedule`.
- KernelTables.Kernel.ResumeWaitpid: if it sleeps again, some other process must be runnable, as for `Schedule`.
- KernelTables.Kernel.SysOpen: the inode that path resolution finds, or none, is a parameter.
- KernelTables.Kernel.SysExit: process 0 does not exit; the source would index its parent -1.
- KernelTables.Kernel.SysClose: the slot must be open; the source does not check.
- KernelTables.Kernel.SysDup: the old slot must be open when there is a free one; the source does not check.
- Printf.ParseSpec: `*` and the qualifiers `h`, `l` and `L` are not parsed.
- ProcessRuns.NoLostWakeUp: for process 0, which adopts children in its sleep, only the children it had when it paused; `ProcessTree.AdoptedUnnoticed` says exactly when another is missed.
- Processes and memory are two models, joined only by name: `sys_fork` and `sys_exit` appear in both, each with its part. Signals are sets of numbers instead of bits, and 1024 file slots a process hold indices instead of pointers.
- `interruptible_sleep_on` and `wake_up`, which have no callers.
- BitmapHeap.Heap.Vmalloc: a free run must exist for a size above 0; without one the source marks bits past the map.
- BitmapHeap.Heap.Search: a free run must exist, as for `Vmalloc`.
- BitmapHeap.Heap.constructor: the map is taken to start clear, where the source copies it from address 0.
- Paths.Lookup: a name that is not among the children is missing; look-ups on disk (`fat_lookup`), and the stubs of the other file systems that report success without a result, are not modelled. Entries that a disk look-up would add count as children.
- PathScanner.FileSystem.LookupIn: a name that is not among the children is missing, as for `Paths.Lookup`.
- PathScanner.FileSystem.Namei: the same.
- PathScanner.FileSystem.SysMkdir: the last component must fit the 256 bytes of a name; the source does not check. Inodes, superblocks and device numbers are left out.
- PathLaws.MakeNested: both names must fit the 256 bytes of a name, as for `SysMkdir`.
- PathScanner.FileSystem.SysMount: a file system whose `mount` fails, after which the source follows a null pointer.
- `sys_chdir`, `sys_chroot` and `sys_stat`, which only use a resolved path.
- Printf.Vsprintf: `*` widths, `h`, `l` and `L`, `%c`, `%s`, `%p` and `%n` are not modelled; widths do not overflow.
- Printf.Vsscanf: conversions are `%d %u %x %o %b` without width or `*`, each before a space or the end; each word that is read must fit the source's buffer of 1024 characters, which it does not check; `%s` and `%c` are not modelled.
- Printf.ReadConversion: the next word must fit that buffer.
- FormatLaws.ScanUndoesFormat: formats that `Printf.Vsscanf` reads, without `%b`, which `vsprintf` does not know.
- Fat12.GetSectorList: the chain must end, fit the list and start at cluster 2 or above; on a cyclic one the source runs past its array. FAT16 and FAT32 chains, long names, directory scans and writing are left out.
- Fat12.ComputeLayout: fields small enough for 32-bit arithmetic; the adjustment of the root directory for FAT32 is left out.
- Disk.Drive.ReadSectors: lengths above 512 must be multiples of 512; for others the source fixes its chunk size once. One request at a time, at most 255 sectors, and a drive that becomes ready.
- Disk.Drive.DevDoWrite: sector `base + (pos + n) / 512` must be on the medium. The source reads and writes it even when the write ends just before it, so a write that ends exactly with the medium's last byte is excluded (kernel/hd.c:386-391).
- Terminal.Tty.ReadLine: stops where the source would wait for more keys; `Terminal.EditedInParts` says that going on later makes no difference. Scan codes, scrolling up and clearing the screen are left out.
- TerminalLaws.TypeLine: on an empty queue, with fewer keys than it holds; more are lost, as `Terminal.Tty.Input` says.
- Assembly, port input and output, descriptor tables, interrupt controller, floppy driver and the second keyboard and name-lookup files.
