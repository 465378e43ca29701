# Verified models of the systems assignments

A Dafny model of the concurrent protocols and stateful data structures in this repository of C systems assignments,
and proofs of what they promise. `dafny verify dfyconfig.toml` checks everything.

| files | models |
|---|---|
| `Graphs`, `DrmProtocol`, `DrmInvariant`, `DrmTheorems`, `DrmLibrary`, `DrmSearch` | the deadlock-detecting mutex: its statements as steps of any number of threads, and its sequential code, cycle search included |
| `MmuMemory`, `MmuAddress`, `MmuState`, `MmuProcesses`, `Mmu`, `MmuRuns` | the software MMU with its translation cache, refining one flat memory per process |
| `ParmakeGraph`, `ParmakeQueue`, `ParmakeStop`, `Parmake`, `ParmakeExamples` | parallel make: cycle detection over the goals, the queue of rules, and one worker to its stop |
| `MakefileText`, `MakefileParser`, `MakefileRoundTrip` | the makefile parser and its round trip |
| `Alloc` | the first-fit allocator with its free list kept in block footers |
| `Minixfs`, `MinixfsFiles` | reading and writing files through direct and indirect blocks |
| `LinkedQueue`, `BlockingQueue` | the blocking queue: its linked list, and its threads step by step |
| `Barrier`, `Cracker` | the reusable barrier, and the password cracker with its passed-on NULL |
| `Scheduler`, `SchedulerFairness` | six orders over one priority queue, and round-robin fairness |
| `Vector`, `CamelCaser`, `ParReduce` | the growable vector, the sentence splitter and the chunked reduce |
| `Division`, `Options`, `Sequences` | shared arithmetic and data types |

Code that changes state in place is a class whose methods are proved against functions of the old state or against
the property itself; the theorems are lemmas about those functions and states. Concurrent code is a step system with
one step per lock, condition-variable or shared-state statement, and the theorems range over all its runs.

Where the code falls short of its purpose the model keeps the code and says exactly when it does what it is for:

- `contains_cycle` can run for ever on a vertex with two successors (`TwoSuccessorsNeverReturn`; `ReturnsExactlyIf` says
  when); on out-degree at most one it is right (`ContainsCycle`), and the protocol never builds anything else
  (`RagSafeWhenUnlocked`).
- Lines 55 and 118 of `mmu.c` copy the directory entry, so a new page table is lost, although the comments in
  `mmu_test.c` (lines 195-199) ask for the directory to be updated. The constant `writeBack` of class `Mmu` chooses
  between the code as written (false) and the stored entry (true); `LoadAfterWrite` and `LoadShowsWriteExactlyIf` say
  over whole runs what a read then shows of the last write, `WriteSwitchRead` and `WriteRead` are short instances.
- `mmu_add_process` does not flush the cache: `AddProcess` says exactly when that matters, `AddTwice` is such a case.
- `*(ptr->size)--` and `*(this->size)++` in `alloc.c` move the pointer, so the fit test of a freed block reads its
  payload. The constant `testsHeader` of class `Heap` chooses between the code as written (false) and the header
  test it means (true). `Malloc` has room exactly if the list before the call is not `Trapped`; `SmallBlockTraps` says
  what that means for blocks of the least size, `ReuseTooSmall` is a program that is caught.
- `minixfs_read` past the end, `minixfs_write` at full capacity and inside a file: `ReadStopsAtEnd`, `Write` and
  `WriteInside` have the exact conditions.
- Every up-to-date rule counts as a goal in `parmake`. `RunParmake` says what the worker then comes to, and
  `WhenItStops` when it stops and when all valid goals are done. All is well if nothing needed is up to date
  (`RunParmakeAfresh`); otherwise it may wait for ever (`GoalCountsTwice`) or stop too early (`DependencyCountsAsGoal`).
- A newcomer under round robin jumps the queue (`NewcomerGoesFirst`, with both conditions); an empty first turn loses
  the start time (`EmptyTurnIsForgotten`); the cracker never tries its first candidate (`FirstCandidateIsMissed`);
  `barrier_wait` does not recheck after waking (`SpuriousWakeupLeavesEarly` says when that matters, against
  `NobodyLeavesEarly` without spurious wakeups); `vector_erase` reads past a full block (`Erase`); `par_reduce` can divide by zero (`Reduce`).

## Model

| member | source | states |
|---|---|---|
| DrmTheorems.NoDeadlock | deadlock_demolition/libdrm.c:35-92 | in every state that any interleaving of init, wait and post statements of any number of threads can reach, following who waits for whose mutex from any thread ends at a thread that is not blocked on a drm and can step once `global_mut` is free, and the holder of `global_mut` can always step |
| DrmTheorems.NoCircularWait | deadlock_demolition/libdrm.c:71-92 | the waits-for relation read off the mutexes themselves, not off the graph, has no cycle |
| DrmTheorems.UnblockedCanStep | deadlock_demolition/libdrm.c:23-92 | a thread that is not blocked on a drm has a next statement whenever it need not wait for `global_mut` |
| DrmTheorems.RefusesExactlyDeadlocks | deadlock_demolition/libdrm.c:71-80 | at the check, the request is refused if and only if granting it would make the thread wait, through real mutex owners, for itself |
| DrmTheorems.RefusedIsOnCycle | deadlock_demolition/libdrm.c:75-76 | the only cycle the check can meet is one closed by the request just added |
| DrmTheorems.RagPathIsWaitChain | deadlock_demolition/libdrm.c:51-80 | at the check, a path in the graph from a drm to the asking thread is a chain of owners that are really blocked |
| DrmTheorems.RefusalRestoresRag | deadlock_demolition/libdrm.c:72-80 | over whole runs: between adding its request and refusing, a call leaves the edges exactly as it found them, whatever other threads do meanwhile |
| DrmTheorems.CriticalSectionOwnsRag | deadlock_demolition/libdrm.c:72-90 | while one thread is between locking and unlocking `global_mut`, no step of another thread changes the graph |
| DrmTheorems.GrantOwns | deadlock_demolition/libdrm.c:82-92 | `drm_wait` returns 1 only to the thread that owns the drm mutex, and the graph then shows the hold |
| DrmTheorems.PostUnlocksOwnedOnly | deadlock_demolition/libdrm.c:35-49 | `drm_post` goes on to unlock if and only if the caller owns the mutex |
| DrmInvariant.RagSafeWhenUnlocked | deadlock_demolition/libdrm.c:35-92 | in every reachable state the graph has out-degree at most one, and it is acyclic whenever `global_mut` is free |
| DrmInvariant.RunKeepsInv | deadlock_demolition/libdrm.c:23-92 | every run keeps the lock discipline, the exact correspondence between graph edges and threads in progress, and acyclicity without the request being checked |
| DrmInvariant.InvKept | deadlock_demolition/libdrm.c:23-92 | one statement of any thread keeps that invariant |
| DrmInvariant.StepMoves | deadlock_demolition/libdrm.c:23-92 | each statement of the library moves one thread, changes the owner of at most its own drm, and leaves exactly the edges that thread should have |
| DrmInvariant.AcyclicKeptByCheck | deadlock_demolition/libdrm.c:75-82 | an accepted request closes no cycle, so accepting it keeps the graph acyclic |
| DrmInvariant.AcyclicKeptByHold | deadlock_demolition/libdrm.c:87-88 | turning the request into a hold closes no cycle, since the new owner waits for nothing |
| DrmLibrary.Library.ContainsCycle | deadlock_demolition/libdrm.c:51-69 | on a graph of out-degree at most one the recursive search terminates, answers whether a cycle is reachable, and leaves `visited` empty although inner calls clear the shared set |
| DrmLibrary.RevisitMeansCycle | deadlock_demolition/libdrm.c:55-57 | meeting a visited vertex again on the chain of calls means that a cycle is reachable |
| DrmSearch.ReturnsExactlyIf | deadlock_demolition/libdrm.c:51-69 | on any graph and from any vertex the search returns, after finitely many nested calls, if and only if the vertex leads to no cycle or the loop reached by always taking the first successor that leads to a cycle uses only first edges; and when it returns its answer is right |
| DrmSearch.FirstEdgesReturn | deadlock_demolition/libdrm.c:51-69 | such a loop is found from wherever the search starts |
| DrmSearch.OtherEdgeNeverReturns | deadlock_demolition/libdrm.c:51-69 | a loop with any other edge is never found: `visited` is cleared on every round |
| DrmSearch.QuietReturns | deadlock_demolition/libdrm.c:51-69 | where no cycle is reachable the search says so, whatever the caller has visited |
| DrmLibrary.Library.WaitRequest | deadlock_demolition/libdrm.c:72-82 | the first critical section accepts or refuses as the step system does and, when it refuses, withdraws the edge |
| DrmLibrary.Library.WaitAcquired | deadlock_demolition/libdrm.c:85-90 | turning the request into the hold keeps the graph closed, of out-degree at most one and acyclic; the thread then waits for nothing and the graph shows its hold |
| DrmLibrary.InitSectionSafe | deadlock_demolition/libdrm.c:26-31 | in every reachable state registering a drm is one step of the protocol, which adds its vertex and leaves the edges alone while `global_mut` is held |
| DrmLibrary.Library.InitRegister | deadlock_demolition/libdrm.c:30 | the drm becomes a vertex of a graph that stays closed |
| DrmLibrary.AcquiredSectionSafe | deadlock_demolition/libdrm.c:83-90 | in every reachable state the requirements of that section hold, and it is two steps of the protocol that end with the thread owning the mutex |
| DrmLibrary.Library.Post | deadlock_demolition/libdrm.c:35-49 | success exactly when the caller owned the mutex, which is when vertices and hold are in the graph; then the edge and the owner go, otherwise nothing changes |
| DrmLibrary.PostSectionSafe | deadlock_demolition/libdrm.c:35-44 | in every reachable state the graph shows the hold of the caller exactly if it owns the mutex |
| DrmLibrary.RequestSectionSafe | deadlock_demolition/libdrm.c:71-76 | in every reachable state the preconditions of that section hold, so the search is only run where it is right |
| DrmSearch.TwoSuccessorsNeverReturn | deadlock_demolition/libdrm.c:51-69 | a concrete graph with a vertex of out-degree two on which the search never returns: no number of nested calls suffices, because clearing `visited` hides the cycle |
| DrmSearch.SearchAgrees | deadlock_demolition/libdrm.c:51-69 | on any graph of out-degree at most one that search, for any graph, returns after finitely many calls what `ContainsCycle` returns |
| Graphs.AddEdgeKeepsAcyclic | deadlock_demolition/libdrm.c:75-76 | a new edge keeps a graph acyclic if its end does not lead back to its start |
| Graphs.NewCycleUsesNewEdge | deadlock_demolition/libdrm.c:75-76 | a cycle that appears with a new edge runs through that edge |
| MmuRuns.RunAll | ideal_indirection/mmu.c:27-274 | any legal run of reads, writes, added and removed processes, whatever the kernel evicts, the cache forgets and fresh frames contain, is a run of the specification, to its end or to the first process added again with entries in the cache that its new directory does not lead to, after which the cache is wrong: one flat memory per process, and as written, above the first directory entry, the pages that only the cache of the current process leads to |
| MmuRuns.CacheSurvivesUnlessCurrent | ideal_indirection/mmu.c:167-173 | a process that is not current, or nothing of which is cached, can be added, for the first time or again |
| MmuRuns.LoadAfterWrite | ideal_indirection/mmu.c:27-153 | over whole runs, exactly what a read shows of the last write to a byte: the byte, if entries are stored back, or the address is under the first entry, or the page has stayed cached since; otherwise what a frame handed out since then happened to hold |
| MmuRuns.LoadShowsWriteExactlyIf | ideal_indirection/mmu.c:27-153 | so, unless a frame happens to hold that byte, the read shows the write if and only if one of the three holds |
| MmuRuns.ByteSinceWrite | ideal_indirection/mmu.c:50-71 | a byte above the first entry is still shown after a write if the page has stayed cached, and comes from a frame handed out later if not |
| MmuRuns.LastWriteInFlat | ideal_indirection/mmu.c:144-149 | the flat memory of a process holds the last write to each address, over any operations of others |
| MmuRuns.ByteMoves | ideal_indirection/mmu.c:27-153 | what one operation does to a byte of a page that the cache leads to |
| MmuRuns.Execute | ideal_indirection/mmu.c:27-274 | one operation answers as the specification does and moves it as the specification says |
| Mmu.Mmu.Read | ideal_indirection/mmu.c:27-89 | faults exactly at address 0 or outside the segments; otherwise shows the flat memory, or, as written and above the first directory entry, the page cached before or else what a fresh frame holds; the page is cached afterwards; misses and faults are counted exactly |
| Mmu.Mmu.Write | ideal_indirection/mmu.c:91-153 | faults exactly at address 0 or outside the segments; otherwise overwrites the flat memory of that process there and nowhere else, and the page that the cache leads to; the page is cached afterwards; misses and faults are counted exactly |
| Mmu.WriteSwitchRead | ideal_indirection/mmu.c:53-71 | write, access by another process, read back: the byte survives if and only if the directory entry is stored back or the address is under the first entry, since lines 55 and 118 fill in a copy |
| Mmu.WriteRead | ideal_indirection/mmu.c:27-153 | write and at once read by the same process, anywhere in its segments: the bytes come back, since the page is still cached |
| Mmu.Mmu.FindEntry | ideal_indirection/mmu.c:40-71 | hit or miss, the entry used is the one the two-level walk reaches (or sits in a table no directory refers to); misses and faults are counted once each |
| Mmu.Mmu.MissingTable | ideal_indirection/mmu.c:57-64 | a zeroed frame becomes a table that only gets into the directory if the entry is stored back |
| Mmu.Mmu.EnsurePresent | ideal_indirection/mmu.c:73-79 | the page is present afterwards with its saved contents, and nothing reachable has lost a byte |
| Mmu.Mmu.Translate | ideal_indirection/mmu.c:40-79 | pid switch, lookup and page-in together reach the present entry of the address; the counters grow by exactly one miss unless it was cached and one fault for each of table and page that was not there |
| Mmu.Mmu.CopyIn | ideal_indirection/mmu.c:144-149 | the copy into a present page is an overwrite of the flat memory |
| Mmu.Mmu.CopyOut | ideal_indirection/mmu.c:81-85 | the copy out of a present page returns the bytes of its frame and changes no contents |
| Mmu.Mmu.BackedIsFirstEntry | ideal_indirection/mmu.c:55-64 | as written, exactly the addresses below 4 MiB ever have a directory entry |
| Mmu.Mmu.AskKernelForFrame | ideal_indirection/mmu_test.c:246-252 | the kernel contract: a free frame, after paging out any set of pages but never directories or tables |
| Mmu.Mmu.SwitchTo | ideal_indirection/mmu.c:40-43 | a pid switch empties the cache |
| Mmu.Mmu.AddProcess | ideal_indirection/mmu.c:167-242 | the new process has an empty flat memory, its first table and two test pages, others keep theirs; the cache stays right if and only if it held nothing that the new directory no longer justifies, since it is not flushed |
| Mmu.AddTwice | ideal_indirection/mmu.c:167-242 | adding a process, reading a test page and adding it again leaves the cache wrong |
| Mmu.Mmu.RemoveProcess | ideal_indirection/mmu.c:244-274 | memory is exactly that without the directory, its tables, their pages and their saved pages; the flat memory of the process is gone, everybody else keeps every byte, and the cache stays coherent and shows the others what it showed |
| MmuProcesses.FreeProcessFrees | ideal_indirection/mmu.c:249-264 | that memory: none of those frames and saved pages is left, and every other frame and every page of other tables is |
| Mmu.Mmu.RemoveTable | ideal_indirection/mmu.c:253-261 | the inner loop frees exactly the frames and saved pages of that table, then the table |
| Mmu.Mmu.RemoveTables | ideal_indirection/mmu.c:249-264 | the two loops free exactly that, and keep the state of all other processes |
| MmuAddress.AddressSplit | ideal_indirection/mmu.c:45-48 | the directory, table and offset fields of an address, taken by mask and shift, together give the address back |
| MmuAddress.SplitIsDivision | ideal_indirection/mmu.c:45-48 | bit by bit, the masks and shifts are quotient and remainder by the page and table sizes |
| MmuAddress.MasksAreConstants | ideal_indirection/mmu.c:17-19 | the masks are the constants of the source |
| MmuAddress.WalkUsesFields | ideal_indirection/mmu.c:54-67 | the two-level walk of an address goes through the entries that these fields name |
| MmuMemory.WalkInjective | ideal_indirection/mmu.c:54-67 | different virtual pages, of one process or two, never share a page-table entry |
| MmuMemory.EvictKeepsContents | ideal_indirection/mmu.c:73-79 | paging out saves every byte |
| MmuMemory.EvictKeeps | ideal_indirection/mmu.c:73-79 | paging out any pages keeps frames, directories and tables consistent |
| MmuMemory.PageInKeeps | ideal_indirection/mmu.c:73-79 | paging in restores what was saved and touches no other page |
| MmuMemory.NewTableKeeps | ideal_indirection/mmu.c:57-64 | a zeroed frame as page table loses nothing stored elsewhere |
| MmuMemory.RemembersStore | ideal_indirection/mmu.c:144-149 | a store through the walk of an address updates the flat memory there only; one through an unlinked table leaves it alone |
| MmuMemory.OnlyOwnPage | ideal_indirection/mmu.c:109-133 | two addresses whose walks meet are on the same page of the same process |
| MmuState.ExtendsKeepsState | ideal_indirection/mmu.c:40-79 | a memory change that keeps contents, directory entries and unlinked tables keeps flat memory and cache coherent |
| MmuState.ReadIsFlat | ideal_indirection/mmu.c:81-85 | the frame behind the walk shows the flat memory |
| MmuState.StoreKeepsState | ideal_indirection/mmu.c:144-149 | the whole invariant, cache coherence included, survives a store |
| MmuState.AccessShows | ideal_indirection/mmu.c:40-79 | a translation shows the page of its entry as it was cached or new, forgets other pages at most, and keeps unlinked entries apart |
| MmuState.StoreShows | ideal_indirection/mmu.c:144-149 | a store through a cached entry changes that page and no other shown page |
| MmuState.ContentsKeptKeepsPages | ideal_indirection/mmu.c:73-79 | memory that keeps every byte keeps every page |
| MmuState.OrphanIsUnbacked | ideal_indirection/mmu.c:53-71 | a cached entry sits in a table that no directory refers to exactly when its page has no walk |
| MmuProcesses.SurvivorsDecide | ideal_indirection/mmu.c:167-173 | after a directory is replaced the cache is coherent exactly if it consists of the entries that survive |
| MmuProcesses.FreeTableKeeps | ideal_indirection/mmu.c:252-262 | freeing a table of a removed process keeps the invariant of all others |
| MmuProcesses.LinkFirstKeeps | ideal_indirection/mmu.c:224-228 | giving the new directory its first table keeps the invariant |
| Parmake.RunParmake | parallel_make/parmake.c:158-224 | one worker and no failing command, any rules up to date, from the parsed graph to the end: the worker stops if and only if the count of line 185 is met at some pull, and has then dealt with exactly what had been queued by that moment; until then every rule it takes is needed by some goal, leads to no cycle, comes once and after all it needs, and runs unless it is up to date; otherwise it waits for ever |
| Parmake.RunParmakeAfresh | parallel_make/parmake.c:158-224 | if no rule that some goal needs is up to date: the worker stops; every rule that a goal without cycles needs has run, each exactly once and after all its dependencies; no rule that leads to a cycle and no rule that no goal needs has run |
| Parmake.AfreshIsComplete | parallel_make/parmake.c:158-191 | the same, read off what a run comes to |
| ParmakeStop.WhenItStops | parallel_make/parmake.c:158-191 | the worker stops if and only if the count is met at some moment, and all valid goals have been dealt with if and only if each was dealt with or ready by then |
| ParmakeStop.OutdatedGoalsRun | parallel_make/parmake.c:158-191 | if nothing dealt with is up to date the worker stops and has dealt with all valid goals |
| ParmakeStop.OnTrackAfterRun | parallel_make/parmake.c:160-188 | one turn: the stop mark enters the queue exactly when the count is met, and from then on what stands before it is exactly what is still to be dealt with |
| ParmakeStop.StopsAsItShould | parallel_make/parmake.c:160 | a worker that pulls the stop mark has dealt with exactly what was ready when the count was met |
| ParmakeStop.WaitsAsItShould | parallel_make/parmake.c:160 | a worker that finds the queue empty has dealt with all valid goals, nothing is ready, and the count was never met |
| ParmakeExamples.GoalCountsTwice | parallel_make/parmake.c:171-187 | a goal that is up to date and needs one rule: it counts twice, the count steps over 1, all is done and the worker waits for ever |
| ParmakeExamples.DependencyCountsAsGoal | parallel_make/parmake.c:171-187 | an up-to-date rule two below the goal: it counts as the goal, and the worker stops without the goal |
| ParmakeExamples.StopsTooEarly | parallel_make/parmake.c:171-187 | the same on chains of any length above three |
| Parmake.Make.Cycles | parallel_make/parmake.c:54-78 | terminates and returns IGNORED if and only if a cycle is reachable from the vertex, with any leftovers of earlier failures in `visited`; on success `visited` is restored and everything needed is marked; nothing that the vertex does not need gets a mark |
| Parmake.Make.CyclesAt | parallel_make/parmake.c:62-75 | the loop body: a visited neighbour or one that leads to a cycle makes the rule ignored |
| Parmake.Make.CheckGoals | parallel_make/parmake.c:196-209 | for every goal in turn, although `visited` is never cleaned: valid are exactly the goals that lead to no cycle, and `goal_total` is their number |
| Parmake.LoadedMeansUnprocessed | parallel_make/parmake.c:193-224 | after loading, a goal is valid if and only if it leads to no cycle, and all that a valid goal needs is UNPROCESSED |
| Parmake.Make.LoadRules | parallel_make/parmake.c:193-224 | only rules that some goal needs are marked, all that valid goals need is, and the queue then holds exactly the rules that are ready, each once, behind a stop mark exactly if there is no valid goal |
| Parmake.Make.QueueLeaves | parallel_make/parmake.c:215-223 | one task for each marked vertex without dependencies and for no other |
| Parmake.Make.CheckFailedDependencies | parallel_make/parmake.c:80-91 | the rule is FAILED afterwards exactly if a dependency is; no other state changes |
| Parmake.Make.Execute | parallel_make/parmake.c:111-122 | the commands run; the rule ends FAILED if it was or a command fails, SUCCEEDED otherwise |
| Parmake.Make.PushFailedAntineighbors | parallel_make/parmake.c:124-131 | exactly the rules that depend on the failed one are queued |
| Parmake.Make.PushSuccessfulAntineighbors | parallel_make/parmake.c:133-156 | exactly the marked rules that depend on this one and have all dependencies SUCCEEDED are queued, each once |
| Parmake.Make.ProcessRule | parallel_make/parmake.c:165-173 | an up-to-date rule counts as a goal here, a stale one runs even after a failed dependency |
| Parmake.Make.RunRule | parallel_make/parmake.c:165-187 | a turn with a rule in hand keeps the queue exactly the ready rules, the states exact and the goal count right, and the stop mark where it belongs |
| Parmake.Make.Rope | parallel_make/parmake.c:158-191 | the worker, whatever is up to date: ends as `RunParmake` says |
| Parmake.Make.WorkUntilStopped | parallel_make/parmake.c:160-188 | the loop comes to the stop mark, or to an empty queue that stays empty, as the count decides |
| ParmakeQueue.NeededAreUnprocessed | parallel_make/parmake.c:54-78 | every rule needed by a marked rule without cycles is UNPROCESSED |
| ParmakeQueue.SomethingReady | parallel_make/parmake.c:160-188 | while a valid goal has not been dealt with, some rule is ready, so a single worker never waits on an empty queue before that |
| ParmakeQueue.RunRulesAreNotCyclic | parallel_make/parmake.c:133-156 | rules run dependencies first never include one that leads to a cycle |
| ParmakeQueue.NeededHaveRun | parallel_make/parmake.c:133-156 | what a run rule needs has run too |
| ParmakeQueue.QueueAfterRun | parallel_make/parmake.c:177-178 | taking a rule and queueing its followers keeps the queue exactly the ready rules |
| ParmakeQueue.WorkingAfterRun | parallel_make/parmake.c:160-187 | the worker invariant survives one turn |
| ParmakeQueue.DealtIsClosed | parallel_make/parmake.c:133-156 | what has been dealt with contains all it needs and leads to no cycle |
| ParmakeGraph.FactsHold | parallel_make/includes/graph.h:14-28 | the elementary facts about needing and about leading to a cycle that the code relies on hold of paths in the graph |
| ParmakeGraph.SomeRuleIsReady | parallel_make/parmake.c:133-156 | among rules that lead to no cycle some rule has all its dependencies outside the set |
| Alloc.Heap.Malloc | malloc/alloc.c:105-125 | first fit: the first listed block whose tested word is large enough is unlinked and handed out, else a new block of the rounded size; the block was not live, is now, and is 8-aligned; all other live blocks keep status and contents; it has room for the request if and only if the list before the call sets no trap: no block that is too small looks large ahead of all others that do |
| Alloc.HeaderTestNeverTraps | malloc/alloc.c:115-121 | the fit test that is meant sets no trap, so it always hands out room |
| Alloc.SmallBlockTraps | malloc/alloc.c:115-121 | as written, a listed block of 32 bytes is a trap for every larger request up to its address, unless a block before it passes the test, and then the first such block decides |
| Alloc.RoomIsSpace | malloc/alloc.c:107-114 | a block has room for request and header exactly when it has the rounded space |
| Alloc.FirstFitDecides | malloc/alloc.c:115-121 | the block the search stops at is too small exactly if the list sets a trap |
| Alloc.Heap.Free | malloc/alloc.c:143-160 | null does nothing; else the block goes to the front of the list, found through its header, and all other live blocks keep their contents |
| Alloc.Heap.RemoveNode | malloc/alloc.c:31-46 | the node at any place of the list is unlinked: the list is the old one without it, heads and both links right, only list nodes written |
| Alloc.Heap.FirstFit | malloc/alloc.c:115-121 | the search stops at the first node that passes the test, or at the end |
| Alloc.Heap.Grow | malloc/alloc.c:122-124 | the new block is cut from above the break, and no live block is touched |
| Alloc.Heap.RoundUp | malloc/alloc.c:107-114 | the loop ends with a multiple of 8 that has room for the request or a list node, and the header |
| Alloc.UnlinkKeeps | malloc/alloc.c:31-46 | unlinking keeps the heap tiled, the headers right and the list doubly linked without repetition |
| Alloc.PushKeeps | malloc/alloc.c:146-159 | linking in at the head keeps the same |
| Alloc.GrowKeeps | malloc/alloc.c:122-124 | extending the break keeps the same |
| Alloc.UserWriteKeeps | malloc/alloc.c:143-160 | a program that writes inside the payload of its own live block cannot disturb headers or list |
| Alloc.NodesSpareLive | malloc/alloc.c:31-46 | writing list nodes changes no byte of a live block |
| Alloc.BlocksDisjoint | malloc/alloc.c:105-125 | blocks share no address |
| Alloc.EveryAddressInOneBlock | malloc/alloc.c:105-160 | every address below the break is in exactly one block, which is live or on the list exactly once |
| Alloc.WalkMeetsFreeBlocks | malloc/alloc.c:115-121 | following the next pointers meets exactly the free blocks, in order, and then null: the list is acyclic |
| Alloc.SmallBlockLooksLarge | malloc/alloc.c:116-118 | as written, a freed block of the least size always shows its own address to the fit test, since line 148 moved the size pointer onto the list node |
| Alloc.ReuseTooSmall | malloc/alloc.c:105-160 | so allocate, free, allocate hands out a block of 32 bytes for any larger request up to about its address |
| MinixfsFiles.WriteThenRead | finding_filesystems/minixfs.c:140-229 | for any offset and length that fit, across blocks and from direct to indirect ones, reading back after a write gives exactly the bytes written |
| MinixfsFiles.ReadOtherAcrossWrite | finding_filesystems/minixfs.c:140-229 | reading any other file gives the same before and after a write |
| MinixfsFiles.FileSystem.Write | finding_filesystems/minixfs.c:140-188 | on success the bytes are at the offset, the size is where the write ended, and no other stored byte of any file has changed; it fails only for want of room, and always when offset plus length reach the full capacity, since one block too many is asked for |
| MinixfsFiles.FileSystem.WriteBlocks | finding_filesystems/minixfs.c:157-181 | the block loop writes exactly the stretch asked for |
| MinixfsFiles.FileSystem.Read | finding_filesystems/minixfs.c:190-229 | returns the bytes of the file from the offset; the length is cut at the end of the file only if the offset is not past it; an offset past the end makes the unsigned difference wrap around |
| MinixfsFiles.ReadStopsAtEnd | finding_filesystems/minixfs.c:202-228 | a read gives bytes of the file and no others if and only if it starts within the file or asks for nothing; past the end it gives all that was asked for of what lies there, or goes through an unassigned block |
| MinixfsFiles.ReadsBehindTheEnd | finding_filesystems/minixfs.c:202-228 | two writes and a read that returns two bytes which are no longer part of the file |
| MinixfsFiles.WriteInside | finding_filesystems/minixfs.c:185-187 | for any existing file, offset and data, the old length stays readable if and only if the write reaches that far; a write that starts inside then leaves the patched contents, and otherwise the tail is lost, since the size is set to the end of the write |
| MinixfsFiles.FileSystem.MinBlockcount | finding_filesystems/minixfs.c:143-147 | the contract of the block-count helper: blocks for the whole range without moving or changing any stored byte, or failure for want of room |
| MinixfsFiles.FileSystem.AssignBlock | finding_filesystems/minixfs.c:143-147 | one more block, through an indirect block when needed, never one that is in use |
| MinixfsFiles.WrittenBytes | finding_filesystems/minixfs.c:157-181 | the block-wise effect of a write is its byte-wise effect |
| MinixfsFiles.StretchBytes | finding_filesystems/minixfs.c:207-224 | the part of a block that a read copies is the file at those positions |
| MinixfsFiles.SetSizeKeeps | finding_filesystems/minixfs.c:185-186 | with the new size every byte of the file still has a block |
| Minixfs.BlocksDisjoint | finding_filesystems/minixfs.c:163-173 | different places of one file or two never share a block |
| Minixfs.CopySetsCells | finding_filesystems/minixfs.c:175 | one memcpy changes the bytes of its stretch in its file and nothing else |
| Minixfs.CopyExtendsWritten | finding_filesystems/minixfs.c:161-181 | one turn of the loop extends the written range by its stretch |
| Minixfs.StretchIsInBlock | finding_filesystems/minixfs.c:158-159 | quotient and remainder by the block size locate a byte: positions in a stretch are exactly the places in its block |
| Minixfs.AddBlockKeeps | finding_filesystems/minixfs.c:143-147 | assigning a free block keeps the assignments disjoint and all bytes in place |
| BlockingQueue.FirstInFirstOut | critical_concurrency/queue.c:71-125 | under any interleaving of any number of pushers and pullers, spurious wakeups included: what has been pulled is a prefix of what has been pushed, the rest is on the list in order, `size` is their number and never exceeds a positive `max_size` |
| BlockingQueue.NoLostWakeup | critical_concurrency/queue.c:71-125 | whenever the mutex is free, every thread still asleep has to wait |
| BlockingQueue.BlockedOnlyWhenStarved | critical_concurrency/queue.c:71-125 | if no thread can move on, the mutex is free and all threads inside are pullers at an empty queue, or all are pushers at a full one |
| BlockingQueue.StepKeepsInv | critical_concurrency/queue.c:71-125 | every step keeps mutual exclusion, the list, and the waiters right |
| BlockingQueue.RunKeepsInv | critical_concurrency/queue.c:71-125 | so does every run |
| BlockingQueue.ActKeepsQueue | critical_concurrency/queue.c:80-93 | the list update of a thread past its loop keeps first in, first out and the bound |
| LinkedQueue.PushAppends | critical_concurrency/queue.c:80-93 | linking a node in appends its datum to the sequence the list stands for |
| LinkedQueue.PullTakesFirst | critical_concurrency/queue.c:106-119 | unlinking the head node removes the first datum, and frees that node only |
| LinkedQueue.SharedQueue.Append | critical_concurrency/queue.c:80-93 | the code does that to its head, tail, size and nodes |
| LinkedQueue.SharedQueue.TakeFirst | critical_concurrency/queue.c:106-119 | and that |
| Barrier.NobodyLeavesEarly | critical_concurrency/barrier.c:31-44 | without spurious wakeups, over any run of n threads: nobody has left more rounds than anyone has arrived in, nobody is further ahead than the barrier allows, `times_used` times n plus `count` is the number of arrivals, and `count` is the number of sleepers |
| Barrier.SleepersWaitForSomeone | critical_concurrency/barrier.c:31-44 | no lost wakeup: while anyone sleeps, someone has yet to arrive in that round |
| Barrier.SpuriousWakeupLeavesEarly | critical_concurrency/barrier.c:31-44 | the wait is not in a loop: from any such state, after a spurious wakeup of a sleeper some continuation without another one lets it leave a round in which somebody has not arrived, if and only if no thread that completes the round has the mutex and is about to count itself |
| Barrier.HarmlessWhileLastCounts | critical_concurrency/barrier.c:31-44 | in that case every continuation is as if the thread had slept on |
| Barrier.LeavesAlone | critical_concurrency/barrier.c:31-44 | a run in which one of two threads leaves and the other never came |
| Barrier.StepKeepsInv | critical_concurrency/barrier.c:31-44 | every step but a spurious wakeup keeps counts and rounds right |
| Barrier.RunKeepsInv | critical_concurrency/barrier.c:31-44 | so does every run |
| Barrier.CountKeepsInv | critical_concurrency/barrier.c:33-41 | the counting step does, whether it completes the round or not |
| Barrier.LastIsAwaited | critical_concurrency/barrier.c:36 | when the last thread counts itself, all others sleep |
| Barrier.Counter.Arrive | critical_concurrency/barrier.c:33-39 | the fields advance the total of arrivals by one; the caller that completes the round is told so |
| Barrier.ArriveIsCount | critical_concurrency/barrier.c:33-39 | that pins the fields down: they are those of the counting step |
| Cracker.EveryRunEnds | password_cracker/cracker1.c:25-107 | for any number of jobs and at least one worker, under every interleaving: a run has at most 2 steps per job and 4 per worker; if shorter it can go on; when it is over every worker has exited, one NULL is left in the queue and the joined counts are the number of crackable jobs |
| Cracker.EndState | password_cracker/cracker1.c:96-104 | when all are joined, every job has been drawn by exactly one worker and finished |
| Cracker.NeverStuck | password_cracker/cracker1.c:25-107 | until then somebody can move |
| Cracker.StepCountsDown | password_cracker/cracker1.c:25-107 | every step of anybody brings the end nearer by exactly one |
| Cracker.StepKeepsInv | password_cracker/cracker1.c:25-107 | the NULL is last in the queue or with one worker once all jobs are drawn; every drawn job is finished or in the hands of the one worker that drew it; the counts are right |
| Cracker.RunKeepsInv | password_cracker/cracker1.c:25-107 | so in every run, with the number of steps to come |
| Cracker.ScoresAddUp | password_cracker/cracker1.c:98-104 | the per-worker counts add up to the number of crackable jobs |
| Cracker.Search | password_cracker/cracker1.c:40-53 | the search finds the first matching candidate after the first, or none |
| Cracker.FirstCandidateIsMissed | password_cracker/cracker1.c:43-46 | the search finds a password where there is one if and only if the first candidate, which the loop steps past before trying, is not the only one that matches |
| Cracker.OnlyCandidateIsMissed | password_cracker/cracker1.c:43-46 | a job whose only candidate matches is given up |
| Cracker.Produce | password_cracker/cracker1.c:84-94 | the jobs in order and one NULL at the end are queued before any worker exists |
| SchedulerFairness.EachOtherJobOnce | savvy_scheduler/libscheduler.c:165-204 | round robin with a fixed job set and increasing times: between two consecutive dispatches of a job every other unfinished job is dispatched exactly once |
| SchedulerFairness.RunningFollowsCircle | savvy_scheduler/libscheduler.c:165-204 | the dispatches go round the jobs in a fixed circle |
| SchedulerFairness.RunRotates | savvy_scheduler/libscheduler.c:165-204 | after any number of quanta, running job and queue are the circle turned by that number |
| SchedulerFairness.ExpireRotates | savvy_scheduler/libscheduler.c:173-188 | one expiry turns it by one: the evicted job, dispatched last, goes to the end |
| SchedulerFairness.NewcomerGoesFirst | savvy_scheduler/libscheduler.c:146-163 | a job that arrives under round robin jumps the whole queue if and only if the first job there has already run, and goes to its end if and only if none has, its own last dispatch being zero |
| SchedulerFairness.NewcomerBeforeWaitingJob | savvy_scheduler/libscheduler.c:146-163 | a concrete queue with a job that has run: the newcomer is put before it |
| SchedulerFairness.LifeAccounts | savvy_scheduler/libscheduler.c:176-186 | over any number of turns the time used is their total, and the start time is the dispatch of the first turn that took time, or of the last turn if none did |
| SchedulerFairness.EmptyTurnIsForgotten | savvy_scheduler/libscheduler.c:184-186 | so, with dispatches at increasing times, the start time is the first dispatch if and only if the first turn took time or was the only one |
| SchedulerFairness.StartMovesOn | savvy_scheduler/libscheduler.c:184-186 | two turns, the first empty: the job has started with the second |
| Scheduler.CompareIsOrder | savvy_scheduler/libscheduler.c:73-142 | each of the six comparers is antisymmetric and transitive |
| Scheduler.OfferKeepsSorted | savvy_scheduler/libscheduler.c:146-163 | a stable offer keeps the queue sorted under all six, and adds just that job |
| Scheduler.NewJobKeepsOk | savvy_scheduler/libscheduler.c:146-163 | so does offering a job with new metadata, since no queued job changes |
| Scheduler.TakeFirstKeepsOk | savvy_scheduler/libscheduler.c:181-188 | the job polled is least, and no job still queued has its key changed by the dispatch |
| Scheduler.DispatchIsLeast | savvy_scheduler/libscheduler.c:169-188 | under the preemptive schemes no job, the evicted one included, precedes the one dispatched; the keys of queued jobs are as they were |
| Scheduler.Scheduler.QuantumExpired | savvy_scheduler/libscheduler.c:165-204 | preemptive schemes put the evicted job back and take the first; the others go on with the running job and take the first only without one |
| Scheduler.Scheduler.AddJob | savvy_scheduler/libscheduler.c:146-163 | the job enters the queue with fresh metadata; the queue stays sorted |
| Scheduler.Scheduler.JobFinished | savvy_scheduler/libscheduler.c:206-216 | the totals grow by this job, and total turnaround stays total waiting plus the running times asked for |
| MakefileRoundTrip.ParsePrintRoundTrip | parallel_make/parser.c:189-330 | printing any list of rules with good targets, space-free dependencies and trimmed, comment-free commands, with any line ends, and parsing it gives exactly their vertices, dependency edges and commands, the last recipe block of a target winning, plus the edges to the goals or the first target; it fails exactly without targets or for an unknown goal |
| MakefileRoundTrip.PrintParsed | parallel_make/parser.c:207-302 | the reading loop rebuilds what the printed rules mean |
| MakefileRoundTrip.RuleParsed | parallel_make/parser.c:207-302 | one more rule does so on top of any others |
| MakefileRoundTrip.HeadingLine | parallel_make/parser.c:257-291 | a heading adds its target and dependencies, whether known or new, and keeps all commands |
| MakefileRoundTrip.BlockParsed | parallel_make/parser.c:225-256 | a non-empty recipe block replaces earlier commands of its target and nothing else |
| MakefileRoundTrip.GoalsAdd | parallel_make/parser.c:303-323 | the goals are filed under the sentinel, unless one is unknown |
| MakefileParser.Parser.Read | parallel_make/parser.c:189-323 | the imperative parser computes the parse function, with its four errors |
| MakefileParser.Parser.ReadLine | parallel_make/parser.c:207-302 | one turn of its loop does |
| MakefileParser.Parser.ReadTarget | parallel_make/parser.c:257-291 | a target line: colon, first word, tokens |
| MakefileParser.Parser.ReadRecipe | parallel_make/parser.c:225-256 | a recipe line: error without a target, else first of a block overrides, later ones append |
| MakefileText.StripBackComments | parallel_make/parser.c:150-163 | the repeated rescans cut exactly where a single pass over the line would |
| MakefileText.CommentIsFirst | parallel_make/parser.c:150-163 | the single pass stops at the first hash outside unescaped quotes |
| MakefileText.FirstIsComment | parallel_make/parser.c:150-163 | and such a place is where it stops |
| MakefileText.InQuotes | parallel_make/parser.c:135-145 | counting from the start with escapes stepped over gives the state of the single pass |
| MakefileText.SplitLineOnSpaces | parallel_make/parser.c:26-44 | the tokens of the line, empty ones dropped |
| MakefileText.TokensOfJoined | parallel_make/parser.c:26-44 | splitting undoes joining with spaces |
| MakefileText.SkipWhitespace | parallel_make/parser.c:90-95 | drops exactly the leading whitespace |
| MakefileText.StripBackWhitespace | parallel_make/parser.c:122-129 | drops exactly the trailing whitespace |
| MakefileText.TerminateWhitespace | parallel_make/parser.c:101-116 | keeps the text up to the first whitespace |
| Vector.GetNewCapacity | vector/vector.c:76-87 | the least power of two that is large enough |
| Vector.Vector.Resize | vector/vector.c:140-154 | a prefix of the contents, or the contents followed by default elements; reallocation only beyond the capacity |
| Vector.Vector.Reserve | vector/vector.c:162-169 | contents kept; capacity a power of two, less than twice the need when it grows |
| Vector.Vector.PushBack | vector/vector.c:205-212 | appends; at full capacity doubles it, copying the old slots once |
| Vector.Vector.PopBack | vector/vector.c:214-220 | drops the last element |
| Vector.Vector.Set | vector/vector.c:178-184 | replaces one element |
| Vector.Vector.Insert | vector/vector.c:222-232 | puts the element at the position and shifts the rest up |
| Vector.Vector.Erase | vector/vector.c:234-243 | removes the element at the position; the loop reads outside the allocation if and only if size equals capacity |
| Vector.EraseFromFull | vector/vector.c:234-243 | eight elements appended and one erased: the loop reads outside |
| Vector.AppendAll | vector/vector.c:205-212 | appending n elements to a fresh vector copies fewer than 2n slots in all |
| Vector.PowersApart | vector/vector.c:76-87 | two different powers of two are a factor of two apart or more |
| CamelCaser.CamelCaser | extreme_edge_cases/camelCaser.c:11-82 | for any non-empty string the table holds the specified sentences, then null; all writes stay within the doubled tables |
| CamelCaser.BuildWord | extreme_edge_cases/camelCaser.c:25-64 | one buffer, doubled when full, holds the camel-cased slice up to the next punctuation, terminated |
| CamelCaser.OneSentencePerPunct | extreme_edge_cases/camelCaser.c:23-78 | there is one output for each punctuation character; an unterminated tail is dropped |
| CamelCaser.CamelCase | extreme_edge_cases/camelCaser.c:31-62 | for words of letters separated by spaces, camel case is the first word in lower case followed by the others capitalised |
| CamelCaser.Append | extreme_edge_cases/camelCaser.c:46-59 | writing one character and doubling a full buffer keeps what was written |
| ParReduce.EveryRunReduces | teaching_threads/par_reduce.c:24-86 | for an associative reducer with left identity and 0 < n <= length, under every interleaving of creations, single reductions and joins: a run ends after exactly 2n plus length steps, can go on before, and then the result is the sequential reduce |
| ParReduce.Reduce | teaching_threads/par_reduce.c:47-86 | the call divides by zero exactly when no thread is asked for, or more than one for a list of one, or the list is empty; otherwise it gives the sequential reduce |
| ParReduce.ChunksPartition | teaching_threads/par_reduce.c:47-66 | the chunks are non-empty, in order, and together the whole list |
| ParReduce.FoldAppend | teaching_threads/par_reduce.c:75-79 | joining two partial results is reducing one stretch after the other |
| ParReduce.StartRoutine | teaching_threads/par_reduce.c:24-30 | a thread reduces exactly its stretch |
| ParReduce.RunKeepsInv | teaching_threads/par_reduce.c:24-79 | in every run each thread holds the reduce of what it has read, and the sum that of the chunks joined |
| ParReduce.NeverStuck | teaching_threads/par_reduce.c:56-79 | until all threads are joined somebody can move |
| DrmLibrary.RegisteredForGood | deadlock_demolition/libdrm.c:26-31 | over whole runs: once drm_init has registered a drm, every later state has its vertex, as the request section requires |
| DrmLibrary.Library.Neighbors | deadlock_demolition/libdrm.c:60 | the contract of the graph library: each successor once, in some order |
| Mmu.Mmu.TlbAdd | ideal_indirection/mmu.c:66-69 | the cache contract: the entry is in, and any others may be forgotten but not changed |
| Mmu.Mmu.AddDirectory | ideal_indirection/mmu.c:168-173 | a zeroed frame becomes the directory: no entry present, the flat memory of the process empty, all others as before |
| Mmu.Mmu.AddFirstTable | ideal_indirection/mmu.c:225-228 | the first directory entry refers to a new, empty table |
| Mmu.Mmu.AddTestPage | ideal_indirection/mmu.c:236-240 | one table entry gets a frame; nothing stored is lost |
| Mmu.Mmu.AddTestPages | ideal_indirection/mmu.c:234-241 | both test pages exist, the second in a frame, the first there too or paged out for the second; nothing stored is lost and the invariant holds |
| Mmu.Mmu.AddFrames | ideal_indirection/mmu.c:168-241 | directory, first table and test pages together: exactly the first directory entry is present |
| Mmu.Mmu.RemoveEntry | ideal_indirection/mmu.c:250-262 | one turn of the outer loop frees the table of that entry, if any, with its pages, and keeps everybody else |
| Parmake.Make.CheckGoal | parallel_make/parmake.c:199-209 | one goal checked keeps count and set of valid goals exact |
| Parmake.Make.Antineighbors | parallel_make/parmake.c:125-134 | the graph contract: each rule that depends on this one, once |
| Parmake.Make.AllSucceeded | parallel_make/parmake.c:141-149 | the flag is set if and only if every dependency SUCCEEDED |
| Parmake.Make.PushFollowers | parallel_make/parmake.c:174-179 | followers are queued by the state the rule ended in |
| Parmake.Make.CountGoal | parallel_make/parmake.c:180-187 | a valid goal counts once; the stop mark is queued exactly when the count is full |
| Parmake.Make.Turn | parallel_make/parmake.c:160-187 | one turn stops with exactly the right rules dealt with, or deals with one more and keeps the worker invariant |
| Alloc.Heap.Store | malloc/alloc.c:143-160 | a store by the owner of a block is that store and leaves the heap sound |
| Scheduler.Scheduler.Poll | savvy_scheduler/libscheduler.c:181-188 | takes the first job, with dispatch and start times, or none |
| Vector.Vector.ShiftUp | vector/vector.c:228-230 | moves every element from the position on up by one |
| CamelCaser.SkipGap | extreme_edge_cases/camelCaser.c:37-39 | a run of whitespace counts as one gap |
| CamelCaser.Store | extreme_edge_cases/camelCaser.c:65-69 | adding one output and doubling a full table keeps the others |
| MakefileParser.Parser.AddDependencies | parallel_make/parser.c:279-290 | every dependency becomes a vertex and an edge |
| MinixfsFiles.FileSystem.FirstUnused | finding_filesystems/minixfs.c:143-147 | a block that is not in use, or none exactly when the disk is full |

## Left out

- `drm_destroy`, `queue_destroy`, `barrier_destroy`, `mmu_delete`: teardown.
- Threads pass their own id to `drm_wait` and `drm_post`, as the interface says, and `drm_wait` gets a drm that `drm_init` registered.
- The graph, set and dictionary libraries are values with their contract; the order of neighbours is left open.
- The kernel frame allocator, `read_page_from_disk`, the swap files and the `tlb_*` functions are contracts: a free frame, saved pages, and a cache that may forget entries at any time. Segment permissions, the segments that start empty and the read/write flags of entries are not modelled.
- Mmu.Mmu.AskKernelForFrame: evicts any pages at any request, which is more than the kernel does.
- Parmake.RunParmake: one worker and no failing command. With several workers the claim of a rule is not atomic, and a failed dependency does not stop a rule.
- Parmake.Make.Rope: the same restriction.
- Targets of `parmake` are numbers, 0 being the empty string of the sentinel; modification times and commands are two sets of rules, fixed before the run; the sets may name any rule, also one without dependencies, which the code never finds up to date.
- `realloc`, `calloc`, `coalesce`, `tail`, wrap-around of `size_t` and a failing `sbrk` in `alloc.c`; memory is addressed by words of eight bytes.
- Block size, direct and indirect counts are parameters, since `minixfs.h` is not part of this model; sizes fit `int`, as the casts assume. `minixfs_min_blockcount` is a contract and makes a missing file, so lines 150-156 do nothing. Time stamps, permissions, directories and the virtual file are not modelled.
- MinixfsFiles.FileSystem.Write: on failure some blocks may have been added, with all stored bytes in place; the helper's own account of that is not part of this model.
- The blocking queue and the barrier are steps between mutex operations; thread creation and the memory model below the mutexes are not modelled.
- Barrier.NobodyLeavesEarly: assumes that no wakeup is spurious, as the code needs.
- The cracker draws from the queue in single steps, which BlockingQueue.FirstInFirstOut justifies for an unbounded queue; hashing, printing and time are left out, and so is a start with no worker.
- `libpriqueue` is a stable sorted sequence; times are reals, and averages, which divide by a job count, are left out.
- Makefile lines hold no NUL characters; file reading and the warnings about redefined recipes are left out, and so are line numbers in error messages.
- CamelCaser.CamelCaser: the empty string is excluded, since the code then reads before its start; characters are those of the C locale.
- Mmu.Mmu.AddProcess: both test pages are said to exist, not to be in frames at the end, since a kernel that may evict any page can page out the first to make room for the second.
- MinixfsFiles.WriteInside: what a write that starts past the end leaves between the old end and its start is whatever the blocks hold, and is not described.
- Copy constructors and destructors of vector elements.
- Vector.Vector.Erase: the slot read outside the allocation is a parameter.
- ParReduce.Reduce: threads are run one after the other; EveryRunReduces covers the interleavings. The copied list is never read and is left out.
- Sockets, processes, signals, the shell, the semaphore, the rendezvous, the memory checker, the string type and the second cracker.
