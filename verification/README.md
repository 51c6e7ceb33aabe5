# NeilOS in Dafny

NeilOS has a small kernel that keeps its memory and its processes in linked lists, packed
bitmaps and page tables, and a user library that draws windows and menus. This project models
the parts where that bookkeeping is hard to get right, in Dafny 4.11, and proves what they
promise. `dafny verify dfyconfig.toml` checks everything.

- **Copy-on-write pages** (`CowSpec`, `CowProofs`, `CowRights`, `CowTeardown`, `CowOrphan`, `CowHeap`,
  `Bitmaps`). A fork shares 4 KB frames read-only; the first store gives the writer its own copy and
  hands the old frame to a sibling or frees it. `CowSpec` is the state machine, `CowProofs` shows that
  no task can tell it from eager copying and that frames are conserved, `CowRights` that mappings keep
  their rights, and who inherits a frame; `CowTeardown` says exactly when ending an entry is safe and
  leaves no frame behind, `CowOrphan` is a run in which one is left, `CowHeap` proves the code on page
  tables and lists in place.
- **Rectangle consolidation** (`Rects`). Overlapping dirty rectangles are split into disjoint
  ones by mutual cutting and recursion.
- **Calendar** (`Calendar`). The loop-free date formula against the summing loops (section 4.16
  of POSIX.1-2017, "Seconds Since the Epoch").
- **Dynamic libraries** (`DylibRead`, `DylibLoad`, `DylibOrder`, `DylibTasks`, `Symbols`). The
  recursive read of library files, the depth-first load into a task and the order it makes, instance
  counts over reads, loads, forks and exits, and symbol lookup by hash (System V ABI, chapter 5,
  "Hash Table") and along a task's list.
- **Scheduler** (`SchedulerSpec`, `Scheduler`). The ring walk, what a switch does to the threads, and
  the bound on waiting.
- **Memory maps** (`MmapRegions`, `MmapList`, `VmBitmap`). Unmapping a range of addresses, and
  the packed bitmap of 4 MB pages.
- **Signals** (`SignalRuns`, `Signals`). Nested delivery with saved masks.
- **Numbers** (`Numbers`, `TwoWords`, `WordShifts`). `itoa`, `%#x` and 64-bit arithmetic in two words.
- **Menus** (`MenuFormat`, `MenuLaws`, `MenuCodec`). The byte format of menu trees, written and parsed,
  and which menus arrive as they were sent.

A structure the source updates in place is a class here, with a specification function of its
contents beside it; a list is a sequence in the order of its links, and a pointer an index into
such a sequence. Each kernel function is one step. Answers of the allocators, the files and the
hash function are parameters, or arbitrary.

Nine promises of the code hold only under a condition. Each is stated with its exact condition,
and with an input on which it fails:

- `Calendar.GetUnixTimeRtc`: years are counted in 8 bits, so dates convert right to 2306
  (`Calendar.FirstWrongYear`).
- `DylibRead.EndsIff`, `DylibRead.SucceedsIff`: a library is recorded only after its needs are
  read, so files that need each other are read for ever (`DylibRead.TwoNeedEachOther`).
- `DylibTasks.Dylibs.ExitLinked`: a failed read leaves idle libraries, which may lose what they
  need (`DylibTasks.FailedReadStrands`).
- `SchedulerSpec.SwitchKeepsIff`: a switch makes the task it leaves READY, also one that has just
  been suspended (`SchedulerSpec.StoppedTaskGoesOn`).
- `SignalRuns.RestoresIff`: a handler may unblock its own signal (`SignalRuns.UnblockedOverwrites`,
  and on a task `Signals.UnblockedInHandler`).
- `CowTeardown.DeallocKeepsMappingsIff`: an ending entry hands no frame over
  (`CowTeardown.ParentEndsFirst`).
- `CowTeardown.EndLeaksNothingIff`: an ending entry keeps what lies where its block was, which may
  be its own by now (`CowOrphan.OrphanLeaks`).
- `MmapRegions.FilePositionsKeptIff`: a cut region keeps its old file offset, so one that goes on
  past the range removed shows other bytes (`MmapRegions.FrontRemovedShiftsFile`).
- `VmBitmap.SafeIffInside`: a search that finds no run may read past the bitmap
  (`VmBitmap.LastPageLeaves`, `VmBitmap.OnlyLastPageFree`).

`SchedulerSpec.TickComesNearer` has a condition too, but no failing run of the source is known: a
current thread that stays runnable would keep the processor (`SchedulerSpec.RunnableCurrentStarves`).
A switch leaves the current thread RUNNING, and `SchedulerHeap.Scheduler.Schedule` keeps a current
thread that is not runnable so.

## Model

| member | source | states |
|---|---|---|
| `CowProofs.CowRefinesEagerCopy` | NeilOS/kernel/memory/page_list.c:182-296 | Over every run of new entries, forks and stores from boot, each entry reads, page for page, the bytes it would hold had every fork copied its parent; the invariant holds all along |
| `CowProofs.RunKeeps` | NeilOS/kernel/memory/page_list.c:182-296 | The same from any state that meets the invariant: a run keeps it, and its views are those of the eager run |
| `CowProofs.StepKeeps` | NeilOS/kernel/memory/page_list.c:182-296 | One step of any task keeps the invariant and reads like one step of eager copying |
| `CowProofs.WritableIsPrivate` | NeilOS/kernel/memory/page_list.c:182-207 | In every reachable state a page mapped for storing is mapped by no other entry |
| `CowProofs.FramesConserved` | NeilOS/kernel/memory/page_list.c:473-539 | In every reachable state an allocated frame is in exactly one owned 4 MB block, or has exactly one owning entry, which maps it; no mapping leads to a free frame |
| `CowProofs.FreedExactlyWhenUnshared` | NeilOS/kernel/memory/page_list.c:502-529 | A write copy frees the frame it leaves if and only if the writer owned it and no other entry of any task maps it; otherwise the frame has a new owner |
| `CowProofs.StoreRefusedOnlyWhen` | NeilOS/kernel/syscalls/interrupt.c:193-223 | A store goes through if and only if the entry is writable and the page is already private or a frame is free |
| `CowProofs.WriteOneByte` | NeilOS/kernel/syscalls/interrupt.c:193-223 | A store changes the byte at its address, as its entry sees it, and no other byte that any entry of any task sees; refused, it changes none |
| `CowRights.RightsAreKept` | NeilOS/kernel/memory/page_list.c:182-296 | Over every run each entry has the rights its oldest ancestor was given, and every page of its table has these rights, except that writing may be withheld |
| `CowRights.HeirIsOldest` | NeilOS/kernel/memory/page_list.c:502-529 | In every reachable state a frame whose owner takes a copy goes to the oldest other entry, of any task, that maps it |
| `CowRights.OpenedAsGiven` | NeilOS/kernel/memory/page_list.c:214-239 | The table made before a first fork maps each page where it was, with the entry's rights but for writing, and owns none |
| `CowProofs.AddKeeps` | NeilOS/kernel/memory/page_list.c:154-161 | A new entry on a fresh 4 MB block keeps the invariant and adds one view, the block's contents |
| `CowProofs.ForkKeeps` | NeilOS/kernel/memory/page_list.c:241-296 | A fork keeps the invariant, changes no view, and the child reads what its parent reads |
| `CowProofs.CopyKeeps` | NeilOS/kernel/memory/page_list.c:473-539 | A write copy keeps the invariant, changes no view of any entry, and leaves the page writable |
| `CowProofs.WriteKeeps` | NeilOS/kernel/syscalls/interrupt.c:193-223 | A store, faulting or not, keeps the invariant and changes one byte of one view, or none if it is refused |
| `CowProofs.StoreKeeps` | NeilOS/kernel/memory/page_list.c:473-539 | A store through a writable page keeps the invariant and is seen by its own entry only |
| `CowProofs.NoSharerLeft` | NeilOS/kernel/memory/page_list.c:502-529 | When the walk along the sharing list finds nobody, no entry of any task maps the frame but the writer |
| `CowProofs.CopyOwners` | NeilOS/kernel/memory/page_list.c:494-533 | Who owns which frame at which page after a write copy, for every frame |
| `CowProofs.CopyConserves` | NeilOS/kernel/memory/page_list.c:494-533 | A write copy keeps ownership of all frames conserved |
| `CowTeardown.DeallocKeepsMappingsIff` | NeilOS/kernel/memory/page_list.c:298-314 | In every state reached by entries, forks, stores and endings that keep to it, ending an entry leaves all mappings of the others on allocated frames if and only if no other entry of its own sharing list still maps, at the same page, a frame it owns or the frame of its own block, and, of a read-only block, no other entry has that block |
| `CowTeardown.ParentEndsFirst` | NeilOS/kernel/memory/page_list.c:298-314 | The input on which it fails: one entry, one fork, and the parent ends first, for any permissions, block and contents |
| `CowTeardown.LifeRefinesEagerCopy` | NeilOS/kernel/memory/page_list.c:182-314 | Over every run of new entries, forks, stores and such endings the invariant holds and each entry that is left reads, page for page, what it would read with eager copying; entries of one block stay on one sharing list with the same permissions, and only they map its frames, each at its own page |
| `CowTeardown.LifeKeeps` | NeilOS/kernel/memory/page_list.c:182-314 | The same from any state that meets the invariant |
| `CowTeardown.EndKeeps` | NeilOS/kernel/memory/page_list.c:48-103 | One such ending: the entry leaves its list, its frames go, the invariant stays, and no other view changes |
| `CowTeardown.EndLeaksNothingIff` | NeilOS/kernel/memory/page_list.c:298-314 | From any state with the invariant and an owner for every allocated frame: after an ending every allocated frame still has an owner if and only if the entry owned no frame in the range of the block it began with |
| `CowOrphan.OrphanLeaks` | NeilOS/kernel/memory/page_list.c:304-306 | The run on which it fails, for any block, contents and place of the copies: a child copies all its pages, its parent ends, the child forks, and its own child copies one page to the frame the block began with; when that one ends, sharing nothing, the frame stays allocated with no owner and no mapping |
| `CowOrphan.ReadyOn` | NeilOS/kernel/memory/page_list.c:182-296 | Where a run from boot has led, one more step leads to a state with the invariant in which every allocated frame has an owner |
| `CowTeardown.BlockSharerIsListed` | NeilOS/kernel/memory/page_list.c:241-280 | Whoever else maps a frame of an entry's own block does so at the frame's page, and is on its sharing list, or, if nobody may write, maps the whole block as it is |
| `CowHeap.PageLists.Add` | NeilOS/kernel/memory/page_list.c:124-161 | The code that links a new entry does to the lists on the heap what `CowSpec.Add` says, at the address given |
| `CowHeap.SetUpPageTable` | NeilOS/kernel/memory/page_list.c:214-239 | The loop maps the whole block read-only, with no page owned and every page copy-on-write |
| `CowHeap.CopyPageTable` | NeilOS/kernel/memory/page_list.c:181-212 | The loop takes the write permission off the parent's copy-on-write pages in place; the child gets the same pages and owns none |
| `CowHeap.PageLists.Share` | NeilOS/kernel/memory/page_list.c:256-280 | The parent of a fork, on the heap: table, flag and sharing list as the function says, child's table fresh |
| `CowHeap.PageLists.Fork` | NeilOS/kernel/memory/page_list.c:241-296 | `page_list_add_copy` on the heap is `CowSpec.Fork`; the child's entry lies at its parent's address |
| `CowHeap.PageLists.Enlist` | NeilOS/kernel/memory/page_list.c:14-46 | `page_cow_list_add`, once or twice: the parent opens the list, the child goes to its end |
| `CowHeap.PageLists.FindSharer` | NeilOS/kernel/memory/page_list.c:502-526 | The walk along the list finds the first other entry that still maps the frame, or none |
| `CowHeap.PageLists.MapCopy` | NeilOS/kernel/memory/page_list.c:493-500 | The frame's bytes are copied and the page mapped to the copy with the entry's own permissions |
| `CowHeap.PageLists.HandOver` | NeilOS/kernel/memory/page_list.c:502-529 | The old frame goes to the first sharer, or is freed |
| `CowHeap.PageLists.TakeCopy` | NeilOS/kernel/memory/page_list.c:482-533 | The body of `page_list_copy_on_write` in its own order is `CowSpec.CopyOnWrite` |
| `CowHeap.PageLists.PageAt` | NeilOS/kernel/memory/page_list.c:474-474 | The page of an address is the one whose 4 KB hold it |
| `CowHeap.PageLists.CopyOnWrite` | NeilOS/kernel/memory/page_list.c:472-539 | It succeeds if and only if the page that holds the address is copy-on-write and a frame is free; on failure nothing changes |
| `CowHeap.PageLists.Write` | NeilOS/kernel/syscalls/interrupt.c:192-223 | A store through the page-fault branch is `CowSpec.Write`, and reports whether it went through; stored, the byte its entry sees at the distance of the address from the entry's start is the new one, and no byte any entry sees besides has changed |
| `CowHeap.CopyInSteps` | NeilOS/kernel/memory/page_list.c:498-533 | Mapping, hand-over and ownership in the code's order make the one-step copy |
| `CowHeap.FirstSharerSkips` | NeilOS/kernel/memory/page_list.c:509-516 | The search does not depend on the entry that moves away, so it may run after its page was remapped |
| `Bitmaps.ReadBitmap` | NeilOS/kernel/memory/page_list.c:105-110 | The packed words are read as the bit sequence they stand for |
| `Bitmaps.WriteBitmap` | NeilOS/kernel/memory/page_list.c:112-120 | A write changes the bit at the index and no other |
| `Rects.RectVector.AddRectangle` | libraries/NeilOS/Core/NSTypes.cpp:543-561 | A pairwise disjoint list stays so and covers exactly its old points and the new rectangle's; the recursion ends because each call meets strictly fewer points already covered |
| `Rects.NSRectConsolidate` | libraries/NeilOS/Core/NSTypes.cpp:563-587 | The output is pairwise disjoint and covers exactly the union of the input; its areas add up to the number of distinct points of the input |
| `Rects.ConsolidatedArea` | libraries/NeilOS/Core/NSTypes.cpp:563-587 | The areas of any disjoint cover of the input add up to the number of its distinct points |
| `Rects.SubtractPartitions` | libraries/NeilOS/Core/NSTypes.cpp:448-541 | For any two overlapping rectangles the pieces are non-empty, disjoint and make up value minus from, or the union when `remove` is set, which is when value sticks out of three or four sides |
| `Rects.FlatPartitions` | libraries/NeilOS/Core/NSTypes.cpp:387-446 | The same for all cases without the swapped self-call |
| `Rects.SwappedCallIsFlat` | libraries/NeilOS/Core/NSTypes.cpp:526-532 | The swapped self-call of case 3 gives at most one piece, removes nothing and does not recurse |
| `Rects.PieceIsCloser` | libraries/NeilOS/Core/NSTypes.cpp:543-561 | The measure of the recursion: a piece has strictly fewer covered points than the rectangle it was cut from, with or without the removal |
| `Rects.OverlapsMeansShared` | libraries/NeilOS/Core/NSTypes.cpp:374-385 | The overlap test holds if and only if the two share a point |
| `Rects.SortByArea` | libraries/NeilOS/Core/NSTypes.cpp:575-579 | The order of the additions: decreasing areas, and the same rectangles |
| `Rects.AreasAddUp` | libraries/NeilOS/Core/NSTypes.cpp:563-587 | In a pairwise disjoint list the areas add up to the number of points covered |
| `Rects.PointsCount` | libraries/NeilOS/Core/NSTypes.cpp:563-587 | A rectangle covers as many points as its area |
| `Calendar.SumsUndoFormula` | NeilOS/kernel/common/time.c:194-224 | For every day number since 1970 the division formula gives a valid Gregorian date whose year, month and day sums give the number back |
| `Calendar.FormulaUndoesSums` | NeilOS/kernel/common/time.c:194-224 | Every valid date from 1970 on survives the trip the other way |
| `Calendar.GetCurrentDate` | NeilOS/kernel/common/time.c:194-224 | The date is valid and denotes exactly the seconds it was made from |
| `Calendar.TimeRoundTrip` | NeilOS/kernel/common/time.c:146-224 | Date to seconds to date is the identity on valid dates |
| `Calendar.GetUnixTimeRtc` | NeilOS/kernel/common/time.c:146-188 | With its 8-bit year counters and 32-bit sums the loop is right modulo 2^32 if and only if the year is at most 2306, for every year a date can hold; exact whenever the answer fits |
| `Calendar.CountYears` | NeilOS/kernel/common/time.c:162-171 | The loop counts leap and other years modulo 256 |
| `Calendar.AddMonths` | NeilOS/kernel/common/time.c:174-179 | The loop adds the days of the months before, modulo 2^32 |
| `Calendar.LossShows` | NeilOS/kernel/common/time.c:163-172 | Days lost to the 8-bit counters are never hidden by the 32-bit sum |
| `Calendar.LostAfter` | NeilOS/kernel/common/time.c:163-172 | Nothing is lost if and only if the year is at most 2306 |
| `Calendar.FirstWrongYear` | NeilOS/kernel/common/time.c:163-171 | In 2307 the counter of other years has wrapped and 365 days, by 256, are lost |
| `Calendar.LoadThenRead` | NeilOS/kernel/common/time.c:146-231 | Setting the clock from a date and reading the date back changes nothing, through 2106 |
| `Calendar.YearDaysClosed` | NeilOS/kernel/common/time.c:165-172 | The sum over years in closed form, with the leap years of the Gregorian rule |
| `Calendar.MonthDaysClosed` | NeilOS/kernel/common/time.c:150-179 | The month table is the 30.6-day line of the formula |
| `Calendar.DayNumberFromMarch` | NeilOS/kernel/common/time.c:204-216 | Day numbers in years that run from March |
| `Calendar.CenturyStep` | NeilOS/kernel/common/time.c:204-204 | The first line of the formula finds the century |
| `Calendar.JulianDays` | NeilOS/kernel/common/time.c:205-205 | The second line removes the Gregorian corrections |
| `Calendar.YearStep` | NeilOS/kernel/common/time.c:206-207 | The third and fourth find the year and the day in it |
| `Calendar.MarchYearFound` | NeilOS/kernel/common/time.c:204-207 | The four lines together give the March year and its day |
| `Calendar.MonthStep` | NeilOS/kernel/common/time.c:208-209 | The last two find month and day |
| `DylibLoad.LoadReachesExactly` | NeilOS/kernel/program/dylib.c:263-368 | A load into a duplicate-free list closed under dependencies ends in such a list holding exactly the old libraries and those reachable from the new one, old order in front; on any graph, loops included, though reading never lets one into memory (`DylibRead.ReadKeepsWhole`) |
| `DylibOrder.LoadIsDepthFirst` | NeilOS/kernel/program/dylib.c:341-365 | The list is in depth-first order: the library at the end of the old list; its first new need next; before each need nothing new but what earlier needs lead to; and what the first needs bring in before all they do not lead to |
| `DylibOrder.FirstNeedFollows` | NeilOS/kernel/program/dylib.c:351-365 | The first need of the file that is not listed yet comes next |
| `DylibOrder.BeforeANeed` | NeilOS/kernel/program/dylib.c:351-365 | Whatever is new and stands before a need is reachable from a need before it in the file |
| `DylibOrder.BroughtFirst` | NeilOS/kernel/program/dylib.c:351-365 | What the first needs bring in through unlisted libraries stands before everything they do not lead to |
| `DylibRead.EndsIff` | NeilOS/kernel/program/dylib.c:76-125 | Reading a library from its file ends if and only if the needs that are tried lead to no loop of libraries not yet in memory |
| `DylibRead.SucceedsIff` | NeilOS/kernel/program/loader/elf.c:819-827 | It succeeds if and only if the library leads, through libraries not yet in memory, to no loop and to none without a file |
| `DylibRead.WithAllFilesEndsIff` | NeilOS/kernel/program/loader/elf.c:819-827 | Where all libraries it leads to have files, it ends if and only if none is on a loop |
| `DylibRead.TwoNeedEachOther` | NeilOS/kernel/program/dylib.c:105-121 | The input on which it never ends: two files that need each other, at any depth of nested reads |
| `DylibRead.ReadBringsInReachable` | NeilOS/kernel/program/dylib.c:380-401 | A successful read brings in exactly the libraries reachable through those not yet in memory |
| `DylibRead.ReadKeepsWhole` | NeilOS/kernel/program/dylib.c:105-121 | However a read ends, what is in memory has all it needs in memory, and is on no loop |
| `DylibRead.BlockedFails` | NeilOS/kernel/program/loader/elf.c:819-827 | No read succeeds where a loop or a missing file lies behind, whatever sound libraries came in meanwhile |
| `DylibRead.StuckNeverEnds` | NeilOS/kernel/program/dylib.c:152-189 | Where a loop is tried, no depth of nested reads is enough |
| `DylibRead.FailureStops` | NeilOS/kernel/program/loader/elf.c:819-827 | A read that fails stops, in the order of the file, at a need behind which a file is missing: the needs before it are in memory, and nothing the later ones alone lead to is read |
| `DylibLoad.LoadGrows` | NeilOS/kernel/program/dylib.c:341-365 | From any list, a load adds only libraries reachable from the new one, once each, with all they need |
| `DylibLoad.LoadAllGrows` | NeilOS/kernel/program/dylib.c:351-365 | The same for the loop over the libraries needed |
| `DylibLoad.ClosedHoldsReachable` | NeilOS/kernel/program/dylib.c:351-365 | A closed list holds all that its members reach |
| `DylibTasks.Dylibs.LoadForTask` | NeilOS/kernel/program/dylib.c:263-368 | With what it needs in memory, the recursive method leaves task i's list as `DylibLoad.Load` says and in depth-first order of the files, other lists and the libraries in memory alone, and the instance counts exact; it ends because fewer libraries are left to list |
| `DylibTasks.Dylibs.LoadByName` | NeilOS/kernel/program/dylib.c:223-230 | If the read ends: it fails if and only if the library leads to one without a file, then no list changes; else the list gains exactly what the library reaches, at its end, in depth-first order of the files; memory is what the read leaves |
| `DylibTasks.RealNameIsPath` | NeilOS/kernel/program/dylib.c:18-41 | An absolute path is kept, any other name is put under /usr/lib, different names apart; doing it again changes nothing |
| `DylibTasks.Dylibs.Get` | NeilOS/kernel/program/dylib.c:152-189 | The recursive read, in place: found or not and memory as `DylibRead.ReadIn` says, each library recorded after its needs with no instance, counts of the others kept |
| `DylibTasks.Dylibs.Contains` | NeilOS/kernel/program/dylib.c:232-261 | True if and only if the task lists the library |
| `DylibTasks.Dylibs.PushBack` | NeilOS/kernel/program/dylib.c:191-204 | A node goes to the end and is counted: instance counts stay equal to list nodes |
| `DylibTasks.Dylibs.Fork` | NeilOS/kernel/program/dylib.c:206-221 | A fork lists the parent's libraries at the same offsets in the same order, every one counted |
| `DylibTasks.Dylibs.DropFirst` | NeilOS/kernel/program/dylib.c:370-378 | A node that goes is counted off; the library leaves memory if and only if no task lists it any more |
| `DylibTasks.Dylibs.Exit` | NeilOS/kernel/program/dylib.c:606-614 | When a task ends, a library leaves memory if and only if that task listed it and no other does |
| `DylibTasks.Dylibs.ExitLinked` | NeilOS/kernel/program/dylib.c:371-378 | What is in memory keeps all it points to if and only if no idle library needs one that only this task lists; always, if none is idle |
| `DylibTasks.FailedReadStrands` | NeilOS/kernel/program/loader/elf.c:821-825 | The input on which it fails: a read that fails half way leaves an idle library, and the end of another task takes what it needs |
| `DylibTasks.NeededStaysLoaded` | NeilOS/kernel/program/dylib.c:341-378 | In every valid state what a listed library needs is in memory, with a positive count |
| `DylibTasks.OccursListed` | NeilOS/kernel/program/dylib.c:232-261 | A library occurs in a list if and only if it is among its names |
| `DylibTasks.TotalUpdate` | NeilOS/kernel/program/dylib.c:206-221 | What replacing one task's list does to the number of nodes |
| `DylibTasks.TotalListed` | NeilOS/kernel/program/dylib.c:370-378 | A listed library has a node |
| `Symbols.HashAgreesWithSearch` | NeilOS/kernel/program/dylib.c:403-442 | On a well-formed table hash chain and linear search both find a name or both miss; the address is the same where the name has one valid symbol |
| `Symbols.ChaseFinds` | NeilOS/kernel/program/dylib.c:422-442 | The chain walk finds a name if and only if a matching symbol is on the chain, and then the first of them there |
| `Symbols.FindFromFirst` | NeilOS/kernel/program/dylib.c:404-419 | The linear search finds a name if and only if some symbol matches, and then the first |
| `Symbols.GetSymbolAddressName` | NeilOS/kernel/program/dylib.c:404-419 | The loop is the linear search |
| `Symbols.GetSymbolAddressHash` | NeilOS/kernel/program/dylib.c:422-442 | The loop is the chain walk, with its two range checks, and ends |
| `Symbols.GetSymbolAddressList` | NeilOS/kernel/program/dylib.c:449-476 | What is found is the address of a symbol of that name plus its library's offset in the task, modulo 2^32; with well-formed tables it is found in the first library of the list that defines the name, and missed if and only if none does |
| `Symbols.FirstDefinerDecides` | NeilOS/kernel/program/dylib.c:449-476 | The same of the specification: the first library that defines the name decides, and nothing is resolved if and only if none does |
| `Symbols.ResolvedLies` | NeilOS/kernel/program/dylib.c:464-467 | Whatever the tables, what is resolved is a symbol of that name in a library of the list, moved by the offset of that node |
| `Symbols.ResolutionIsStable` | NeilOS/kernel/program/dylib.c:341-342 | A list that only grows at its end resolves every symbol it could resolve to the same address |
| `SchedulerSpec.NoStarvation` | NeilOS/kernel/program/task.c:1040-1182 | In every run whose current thread is not itself runnable at a tick, a thread that stays READY in a live task gets the processor within as many ticks as there are threads, and as many more for each change of the list (a thread or task that comes, ends or is switched to directly) |
| `SchedulerSpec.TurnInOneRound` | NeilOS/kernel/program/task.c:1040-1182 | While the list does not change: within as many ticks as there are threads |
| `SchedulerSpec.RunsWithin` | NeilOS/kernel/program/task.c:1076-1125 | More exactly: within its ring distance from the thread running now, and one turn of the ring for each change |
| `SchedulerSpec.TickComesNearer` | NeilOS/kernel/program/task.c:1140-1182 | A tick lessens the ring distance to a waiting thread if and only if the current thread is not itself runnable |
| `SchedulerSpec.RunnableCurrentStarves` | NeilOS/kernel/program/task.c:1162-1169 | Why the bound asks for a current thread that is not runnable: one that stays runnable is chosen at every tick, and every other one waits for ever (no path found in the source leaves it so) |
| `SchedulerSpec.ReadyCurrentKeepsTheProcessor` | NeilOS/kernel/program/task.c:1107-1109 | The walk starts at the current thread, so one that is runnable is chosen again |
| `SchedulerHeap.Scheduler.GetNextRunnableThread` | NeilOS/kernel/program/task.c:1075-1125 | The walk ends, and yields the nearest READY thread of a live task in ring order from the hint; failing that the start itself if it runs, else nothing |
| `SchedulerHeap.Scheduler.Advance` | NeilOS/kernel/program/task.c:1110-1118 | The step to the next thread skips tasks without threads and wraps to the head of the list |
| `SchedulerHeap.Scheduler.ContextSwitch` | NeilOS/kernel/program/task.c:1039-1073 | Thread and task states after a switch, with the FINISHED and UNLOADED exceptions; nothing else changes; to a runnable thread, it passes the processor as `SwitchLosesNobody` says |
| `SchedulerSpec.SwitchLosesNobody` | NeilOS/kernel/program/task.c:1058-1067 | If the thread switched from can run, the same threads can run after as before; in any case the new thread starts running, the old one stops, no other starts or stops, and none that has finished comes back |
| `SchedulerSpec.SwitchKeepsIff` | NeilOS/kernel/program/task.c:1058-1067 | The same threads can run after a switch if and only if the thread switched from can run or has finished, and its task is live or has no other live thread |
| `SchedulerSpec.StoppedTaskGoesOn` | NeilOS/kernel/program/task.c:1061-1061 | The input on which it fails: a task that has stopped itself is made runnable again by the next switch away from it |
| `SchedulerSpec.SwitchStates` | NeilOS/kernel/program/task.c:1058-1067 | The state of every thread and task after a switch, one by one |
| `SchedulerHeap.Scheduler.Schedule` | NeilOS/kernel/program/task.c:1140-1182 | A tick is a step of the runs of `NoStarvation`; a switch makes the new thread RUNNING and passes the processor as `SwitchLosesNobody` says; if the current thread was not itself runnable before, it is not after |
| `SchedulerSpec.NextNumber` | NeilOS/kernel/program/task.c:1110-1118 | The walk numbers the threads round the ring |
| `SchedulerSpec.NumberIsUnique` | NeilOS/kernel/program/task.c:1110-1118 | Each thread has its own number |
| `SchedulerSpec.NextIsNearer` | NeilOS/kernel/program/task.c:1107-1119 | One step is one nearer to every other thread |
| `SchedulerSpec.WalkOn` | NeilOS/kernel/program/task.c:1107-1119 | One step is one further from the start, until the walk is back there: it visits every thread once |
| `MmapList.MmapList.RegionRemove` | NeilOS/kernel/memory/mmap_list.c:132-182 | The list ends as the old regions each cut by the range, in some order; the loop ends because the mapped bytes left in the range strictly fall |
| `MmapRegions.RemovedExactly` | NeilOS/kernel/memory/mmap_list.c:132-182 | Every address outside the range stays mapped as often and with the same permissions, sharing, file and offset; in the range nothing is left |
| `MmapRegions.DisjointKept` | NeilOS/kernel/memory/mmap_list.c:132-182 | Disjoint regions stay disjoint |
| `MmapRegions.FilePositionsKeptIff` | NeilOS/kernel/memory/mmap_list.c:151-173 | The offset is not moved with the start: the survivors of a file mapping show the same bytes if and only if the region does not go on past the range |
| `MmapRegions.FrontRemovedShiftsFile` | NeilOS/kernel/memory/mmap_list.c:163-169 | The inputs on which it fails: with any part of the front of a mapping gone, the rest shows the bytes from the mapping's start |
| `MmapRegions.CutSettles` | NeilOS/kernel/memory/mmap_list.c:139-179 | One pass leaves the same final regions to reach and strictly fewer mapped bytes in the range |
| `MmapRegions.CutOne` | NeilOS/kernel/memory/mmap_list.c:145-176 | The same for the pieces put in place of one region, or at the head |
| `MmapRegions.PiecesAreDone` | NeilOS/kernel/memory/mmap_list.c:145-176 | Pieces are not cut again and hold no byte of the range |
| `MmapRegions.CountPieces` | NeilOS/kernel/memory/mmap_list.c:145-176 | Cutting all regions removes the range, address by address |
| `MmapRegions.CountPermuted` | NeilOS/kernel/memory/mmap_list.c:39-54 | The order in which regions are linked does not matter to what an address maps to |
| `MmapList.MmapList.RegionExists` | NeilOS/kernel/memory/mmap_list.c:61-82 | The first region with a byte in the range, or none if no region has one |
| `MmapList.MmapList.Cut` | NeilOS/kernel/memory/mmap_list.c:139-176 | The four branches, on the list in place, are one pass of the specification |
| `MmapList.MmapList.Link` | NeilOS/kernel/memory/mmap_list.c:39-54 | A region goes to the head of the list |
| `MmapList.MmapList.Unlink` | NeilOS/kernel/memory/mmap_list.c:327-356 | One region leaves the list; the others stay in order |
| `VmBitmap.FindUserPages` | NeilOS/kernel/memory/memory.c:83-146 | While page 0 and the first kernel page are mapped, a search for user pages answers 0 if and only if no free run of that length exists, else the lowest (from the back: highest) one, all below 3 GB |
| `VmBitmap.FindKernelPages` | NeilOS/kernel/memory/memory.c:83-146 | A search for kernel pages answers 0 if and only if no free run of that length starts from 3 GB on, else the lowest (from the back: highest) one, inside the 4 GB |
| `VmBitmap.VmMap.GetNextUnmappedPages` | NeilOS/kernel/memory/memory.c:83-114 | Where it stays inside the array, the search finds the lowest free run of its half, or there is none |
| `VmBitmap.VmMap.GetNextUnmappedPagesFromBack` | NeilOS/kernel/memory/memory.c:116-146 | Where it stays inside, the search from the back finds the highest |
| `VmBitmap.SafeIffInside` | NeilOS/kernel/memory/memory.c:99-106 | The search reads no word past the array if and only if there is a run to find or a mapped page stops every probe; from the back, if and only if its first probe fits or there is such a page |
| `VmBitmap.LastPageLeaves` | NeilOS/kernel/memory/memory.c:99-106 | The inputs on which it reads past: nothing mapped from the last page of its half on, more pages asked for than are left, and, for the forward search, no run to find; then the probe of that page is made and leaves the array |
| `VmBitmap.OnlyLastPageFree` | NeilOS/kernel/memory/memory.c:99-106 | One of them, for both searches: all pages but the last are mapped, and two kernel pages are asked for |
| `VmBitmap.VmMap.RunIsFree` | NeilOS/kernel/memory/memory.c:99-106 | The probe loop reads the packed bits of exactly the pages of the run |
| `VmBitmap.VmMap.UnmapPages` | NeilOS/kernel/memory/memory.c:239-257 | Clears the bits of the half-open page range and no others, in one word, two or many |
| `VmBitmap.VmMap.SetMapped` | NeilOS/kernel/memory/memory.c:157-160 | Mapping or unmapping one page changes its bit and no other |
| `VmBitmap.UserRunsStayBelowKernel` | NeilOS/kernel/memory/memory.c:357-364 | With the two bits the boot code sets, a run found for user pages starts above 0 and ends below the kernel |
| `VmBitmap.NoneMeansNone` | NeilOS/kernel/memory/memory.c:95-96 | Skipping full words loses no run |
| `VmBitmap.RunsAreCandidates` | NeilOS/kernel/memory/memory.c:95-96 | A full word starts no free run |
| `Signals.Pcb.NestedRun` | NeilOS/kernel/program/signal.c:156-206 | Over any well-nested run of arrivals, new handlers, mask changes that keep active signals blocked, deliveries and returns, of any depth, the handlers active before are active after with their saved masks untouched |
| `Signals.Pcb.RunHandler` | NeilOS/kernel/program/signal.c:156-206 | A delivery and all that happens up to its return leave the mask in force before it |
| `Signals.Pcb.Handle` | NeilOS/kernel/program/signal.c:156-197 | The lowest pending unblocked signal stops being pending; if caught, the old mask is saved in its slot and the new mask is exactly the old, the handler's and the signal; well-nested handlers stay so, with no slot in use overwritten |
| `Signals.Pcb.SigReturn` | NeilOS/kernel/program/signal.c:199-206 | The mask becomes that of the innermost handler's slot, which for well-nested handlers is the mask before its delivery |
| `Signals.Pcb.SetMask` | NeilOS/kernel/program/signal.c:118-120 | After it every return, in every run of deliveries and returns, restores the mask before its delivery if and only if the new mask is safe |
| `SignalRuns.RestoresIff` | NeilOS/kernel/program/signal.c:184-206 | From any well-nested state: all returns to come restore the right mask if and only if each active caught signal is blocked, or its slot holds this very mask and every other handler that can be entered blocks it |
| `SignalRuns.NextDeliveryKeepsIff` | NeilOS/kernel/program/signal.c:184-187 | The next delivery alone overwrites no slot in use with another mask if and only if each active caught signal is blocked, or its slot holds this very mask |
| `SignalRuns.RunStaysSafe` | NeilOS/kernel/program/signal.c:156-206 | Safe masks, of all levels of nesting, stay safe over deliveries and returns |
| `SignalRuns.UnblockedOverwrites` | NeilOS/kernel/program/signal.c:103-112 | The input on which the promise fails: a handler, entered with nothing blocked, unblocks its own signal and blocks another; the state was well nested, and a run from the new one overwrites the slot in use |
| `Signals.UnblockedInHandler` | NeilOS/kernel/program/signal.c:103-112 | The same run on a task: signal 1 comes again, both handlers return, and signal 2 stays blocked in a task that blocked nothing |
| `SignalRuns.ActiveAreDistinct` | NeilOS/kernel/program/signal.c:184-187 | Active caught signals are distinct, so no two share a slot |
| `Signals.Pcb.SetHandler` | NeilOS/kernel/program/signal.c:90-96 | SIGKILL and SIGSTOP cannot be caught |
| `Signals.Pcb.SetMasked` | NeilOS/kernel/program/signal.c:103-112 | One bit of the mask changes, and none for SIGKILL and SIGSTOP |
| `Signals.Pcb.SetPending` | NeilOS/kernel/program/signal.c:68-73 | One pending bit changes |
| `Signals.Pcb.Pick` | NeilOS/kernel/program/signal.c:168-173 | The search finds the lowest pending unblocked signal, or none if there is none |
| `Numbers.Itoa` | NeilOS/kernel/common/lib.c:721-754 | The buffer holds the numeral of the value and a NUL, and no other byte of it changes |
| `Numbers.RenderDenotes` | NeilOS/kernel/common/lib.c:734-753 | What is written is a numeral without leading zeros that denotes the value, in any radix from 2 to 36 |
| `Numbers.NumeralIsRendered` | NeilOS/kernel/common/lib.c:734-753 | It is the only one: every such numeral is what is written for the value it denotes |
| `Numbers.WriteDigits` | NeilOS/kernel/common/lib.c:743-751 | The loop writes the digits lowest first |
| `Numbers.ReversedIsRendered` | NeilOS/kernel/common/lib.c:743-753 | Reversed, they are the numeral |
| `Numbers.StrRev` | NeilOS/kernel/common/lib.c:763-779 | The string is reversed in place and nothing else changes |
| `Numbers.StrLen` | NeilOS/kernel/common/lib.c:788-796 | The length of the string up to its NUL |
| `Numbers.AlternateHex` | NeilOS/kernel/common/lib.c:419-432 | `%#x` gives eight hexadecimal digits that denote the value, for every 32-bit value, within its 64-byte buffer |
| `Numbers.PaddedDenotes` | NeilOS/kernel/common/lib.c:423-428 | The zeros in front change nothing |
| `Numbers.HexDigits` | NeilOS/kernel/common/lib.c:419-428 | A value below 16^k has at most k hexadecimal digits |
| `Numbers.BufferSuffices` | NeilOS/kernel/common/lib.c:721-754 | 33 bytes hold any 32-bit value in any radix |
| `Numbers.IsDivMod` | NeilOS/kernel/common/lib.c:744-747 | The quotients and remainders of the specification are C's |
| `TwoWords.Add` | NeilOS/kernel/common/types.c:16-25 | Two-word addition is addition modulo 2^64 |
| `TwoWords.Inc` | NeilOS/kernel/common/types.c:33-40 | Increment, likewise |
| `TwoWords.Sub` | NeilOS/kernel/common/types.c:27-31 | Subtraction by complement is subtraction modulo 2^64 |
| `TwoWords.AddThenSub` | NeilOS/kernel/common/types.c:16-31 | Subtraction undoes addition, words and all |
| `TwoWords.Greater` | NeilOS/kernel/common/types.c:82-88 | Compares the numbers |
| `TwoWords.Less` | NeilOS/kernel/common/types.c:90-96 | Compares the numbers |
| `TwoWords.ShlMultiplies` | NeilOS/kernel/common/types.c:42-56 | A left shift by 1 to 63 multiplies by the power of two, modulo 2^64 |
| `TwoWords.ShrDivides` | NeilOS/kernel/common/types.c:58-72 | A right shift by 1 to 63 divides by it |
| `WordShifts.ShlOfPart` | NeilOS/kernel/common/types.c:51-53 | On bit vectors, the shifts and `|` of a left shift by 1 to 31 give the two words of the number `TwoWords.Shl` gives |
| `WordShifts.ShlOfWhole` | NeilOS/kernel/common/types.c:44-46 | Likewise for 32 to 63 |
| `WordShifts.ShrOfPart` | NeilOS/kernel/common/types.c:67-69 | On bit vectors, the mask, shifts and `|` of a right shift by 1 to 31 give the two words of the number `TwoWords.Shr` gives |
| `WordShifts.ShrOfWhole` | NeilOS/kernel/common/types.c:60-62 | Likewise for 32 to 63 |
| `WordShifts.DownIsQuotient` | NeilOS/kernel/common/types.c:67-69 | `>>` and the mask are quotient and remainder of the number by the power of two |
| `WordShifts.UpIsProduct` | NeilOS/kernel/common/types.c:51-53 | `<<` is the product with the power of two, modulo 2^32 |
| `WordShifts.OrIsSum` | NeilOS/kernel/common/types.c:52-68 | `|` of words that share no bit is their sum |
| `WordShifts.ComplementOnNumbers` | NeilOS/kernel/common/types.c:74-80 | `~` is 2^32 - 1 minus the number, which is what subtraction uses |
| `MenuCodec.RoundTrip` | libraries/NeilOS/GUI/NSMenu.cpp:214-329 | A serialized menu of any depth parses to the received menu (`MenuLaws.ItemArrives`), with as many items; to the very menu sent if and only if no string holds a NUL, no item has an action, and every enabled item has a submenu |
| `MenuLaws.MenuSameIff` | libraries/NeilOS/GUI/NSMenuItem.cpp:225-240 | A menu arrives as it was sent if and only if no string holds a NUL, no item has an action, and every enabled item has a submenu, at any depth |
| `MenuLaws.ItemArrives` | libraries/NeilOS/GUI/NSMenuItem.cpp:225-240 | An item arrives enabled if and only if it was and had an action or a submenu; its title and key up to their first NUL; never with an action; all else as it was |
| `MenuLaws.ItemsArrive` | libraries/NeilOS/GUI/NSMenu.cpp:231-244 | All items of a menu arrive, in their order |
| `MenuLaws.MenuLastsIff` | libraries/NeilOS/GUI/NSMenuItem.cpp:239-239 | Sent on, a received menu arrives unchanged if and only if no item was enabled for its action alone |
| `MenuLaws.ItemInOrder` | libraries/NeilOS/GUI/NSMenuItem.cpp:296-324 | The bytes of an item, field by field in the order they are copied |
| `MenuLaws.MenuInOrder` | libraries/NeilOS/GUI/NSMenu.cpp:307-323 | The bytes of a menu, likewise |
| `MenuCodec.MenuFromData` | libraries/NeilOS/GUI/NSMenu.cpp:214-275 | On the bytes of any menu with anything after them it consumes exactly those bytes and gives that menu; fewer than 45 bytes are refused |
| `MenuCodec.ItemFromData` | libraries/NeilOS/GUI/NSMenuItem.cpp:146-247 | The same for an item, through its submenu |
| `MenuCodec.NextItemFromData` | libraries/NeilOS/GUI/NSMenu.cpp:235-244 | One turn of the loop over the items consumes one item and leaves the cursor on the next |
| `MenuCodec.ItemsFromData` | libraries/NeilOS/GUI/NSMenu.cpp:231-244 | The loop gives all items in order |
| `MenuCodec.TrailerFromData` | libraries/NeilOS/GUI/NSMenu.cpp:246-252 | The trailer's fields, with the length check before the frame |
| `MenuCodec.ColorsFromData` | libraries/NeilOS/GUI/NSMenu.cpp:254-258 | The five colours, in order |
| `MenuCodec.HeadFromData` | libraries/NeilOS/GUI/NSMenuItem.cpp:146-200 | Font, strings, flags and the submenu flag; the cursor is on the submenu |
| `MenuCodec.TailFromData` | libraries/NeilOS/GUI/NSMenuItem.cpp:209-223 | The fields after the submenu; the cursor is at the end of the item |
| `MenuCodec.FontFromData` | libraries/NeilOS/Core/NSFont.cpp:148-166 | The default font of a given size |
| `MenuCodec.StringsFromData` | libraries/NeilOS/GUI/NSMenuItem.cpp:167-177 | Title and key equivalent, up to a NUL |
| `MenuCodec.ImageFromData` | libraries/NeilOS/GUI/NSMenuItem.cpp:178-200 | Flags, an absent image, and whether a submenu follows |
| `MenuCodec.LayoutFromData` | libraries/NeilOS/GUI/NSMenuItem.cpp:209-216 | Border height and the five flags, in order |
| `MenuCodec.SizesFromData` | libraries/NeilOS/GUI/NSMenuItem.cpp:218-223 | Size and font height, with the length check |
| `MenuCodec.Copy` | libraries/NeilOS/GUI/NSMenuItem.cpp:147-147 | The copy macro: NULL if and only if the cursor is at or past the end; otherwise the bytes at the cursor |
| `MenuCodec.CopyString` | libraries/NeilOS/GUI/NSMenuItem.cpp:167-171 | A length and that many bytes |
| `MenuCodec.SerializeItem` | libraries/NeilOS/GUI/NSMenuItem.cpp:250-329 | The buffer is the item in the byte format |
| `MenuCodec.SerializeMenu` | libraries/NeilOS/GUI/NSMenu.cpp:277-329 | The buffer is the menu in the byte format |
| `MenuCodec.WriteFields` | libraries/NeilOS/GUI/NSMenuItem.cpp:296-324 | Summing lengths, allocating once and copying field by field fills the buffer exactly |
| `MenuFormat.U32RoundTrip` | libraries/NeilOS/GUI/NSMenuItem.cpp:167-168 | A 32-bit number survives its four bytes |

## Left out

- Locking, interleaving inside a kernel function, the TLB, control registers, port I/O and the RTC; the date the clock chip gives is a parameter.
- Failing allocations, except of the frame a write copy needs.
- Page tables set up by mmap (page_list.c:198-200), and the packing of a frame and its permission bits into one word: an entry of a page table is a pair.
- The search of page_fault for the entry of an address; entries are named directly.
- DeallocKeepsMappingsIff: states after an ending that took a frame another entry maps; the runs of `Life` make no such ending.
- The end of an entry on the page tables and lists in place (page_list.c:48-103, 298-314): `CowTeardown.End` is a function on states.
- Sharing lists as linked nodes with a head pointer in every entry: they are sequences.
- Rectangles with non-integer coordinates or without a positive size, NSRectClamp, and the number of rectangles in the output, which the source does not promise to be minimal.
- SortByArea: std::sort may return any order by decreasing area; insertion gives one of them, and the results about consolidation use no more than that the rectangles are the same.
- GetUnixTimeRtc: the source multiplies in signed 32 bits (time.c:172), which the model lets wrap.
- GetCurrentDate: seconds are any natural number; in 32 bits none of the source's intermediate results wraps.
- time_add, time_subtract, time_less, time_increment_ms: short, without loops of interest.
- LoadForTask: memory for a library's pages is always found; the address is arbitrary.
- The contents of library files, but for the libraries they need; a file that is there can be read.
- LoadByName: libraries in memory must have all they need in memory, which `ExitLinked` says when it is kept; the source follows pointers to libraries that are gone.
- Relocation, initialization functions, and the making of the main program's own symbol table (dylib.c:127-150), a nameless first node of a task's list that is searched like any other.
- The hash function itself: any function from names to numbers.
- NoStarvation: what a change of the list does to the ring in detail; each may cost a whole turn, since a task that ends restarts the walk at the head (task.c:990-999) and a new thread is switched to directly (sysproc.c:385-386).
- Tasks listed without a pcb (task.c:1114), switches of a task to itself to deliver a signal, should_terminate, and a current thread whose task is no longer listed; GetNextRunnableThread takes the case of a stale hint as no hint.
- remove_page_table_mappings, mmap_list_process, mmap_list_sync and mmap_list_copy.
- The page directory beside the bitmap (memory.c:259 clears a count of bytes, not of entries).
- GetNextUnmappedPages, GetNextUnmappedPagesFromBack: what a search answers that reads past the bitmap; `SafeIffInside` says which do.
- SetMask: the runs of its promise have no further change of mask or handlers.
- signal_pending (signal.c:79-83) as a test: it only over-approximates, so a delivery here requires a pending signal that is not blocked; alarms, signal_wait with its slot 0, and what default actions do.
- Menu images, view items and fonts other than the default: the parser answers `Other`.
- Reads of the parser past its buffer: it answers `PastEnd`.
- What NSMenu and NSMenuItem recompute from the parsed fields (sizes, layout), and the action functions.
- Event codecs, window server, drawing, sound and images.
