# Verified models of five components

This project models the parts of the repository whose correctness rests on more than one function, and
proves what their documentation and tests promise. `dafny verify dfyconfig.toml` checks everything.

**The liballoc heap** (`HeapLayout`, `HeapLinks`, `HeapSearch`, `HeapBlocks`, `HeapRuns`, `HeapLimits`,
`Liballoc`). A layout is a list of page blocks with their allocations; `HeapLinks` says how the doubly linked
headers in memory represent it, and the class `Liballoc.Heap` runs `malloc`, `free` and `realloc` on those
headers, the counters, the best bet and the bytes. Each method's new state is a function of the old layout;
order, disjointness, accounting, completeness of the search, exact restoration by `free`, and safety over all
runs are proved about those functions, and `HeapRuns.Perform` shows that every call of a method is a step of
such a run. Sizes are below the 64-bit wrap of `size + 40` (`Sized`). The answer of the page hook is the
parameter `page`: NULL, or fresh, page-aligned pages apart from all others. When it answers with pages, the
request is within the exact size up to which the original's 32-bit page computation does not wrap
(`NewMajorFits`).

**Exact arithmetic behind libm** (`PowerOfTwo` to `Rounding`, `Floats`, `Words`, `Words64`, `Sticky`, `Fmod`,
`Remquo`, `Scalbn`, `SquareRoot`, `SqrtWords`, `FmaParts`, `FmaSum`, `FmaRound`, `Fma`, `FloatLaws`). A word of a binary
interchange format (section 3.4 of IEEE 754-2008) is an integer, and its magnitude is counted in units of the
least subnormal number, so that exactness and correct rounding are statements about integers. The code is
modelled over the parameters of the format: `fmod` and `fmodf` are one method at `BINARY64` and `BINARY32`,
and the conditions `IsWide`, `IsTwoWords` and `IsDoubleWord` name what the code needs of its format.
`Scalbn.Binary64IsWide`, `SqrtWords.Binary64IsTwoWords` and `FmaParts.Binary64IsDoubleWord` show that double meets
them, and `Scalbn.Binary32IsWide` shows what `sqrtf` and `remquof` need of float. Rounding is to nearest even
(section 4.3.1), the mode in which the `1.0 - tiny` tests of the square roots come to `q += q & 1`. Arithmetic
that the original leaves to the floating-point unit is the correctly rounded operation; `FloatLaws` says what the
results are on every kind of operand, without naming those operations.

**The multi-CPU scheduler** (`SchedulerModel`, `SchedulerTick`, `SchedulerPicks`, `SchedulerFix`, `SchedulerUpdate`,
`SchedulerRuns`, `SchedulerMean`, `Scheduler`). The class works on task objects and their queues; its methods
compute functions on states, about which work conservation, priority order, the affinity pass and bounded
waiting are proved. `SchedulerMean` shows that the exact mean of the model is what the floating-point division of
the original comes to for sums up to 2^53, and that this bound is the largest.

**The JSON parser on its scanner** (`JsonSyntax`, `JsonGrammar`, `JsonRoundTrip`, `JsonSoundness`,
`JsonTraps`, `JsonParser`). Concrete syntax trees give every text of the accepted grammar and its value; the parser returns
a value exactly for those texts, and the round trip with a printer follows. `JsonTraps` says when it breaks off the
program instead of returning an error.

**libc integer printing and parsing** (`IntegerText`, `IntegerRoundTrip`, `IntegerShape`,
`StrtollComment`, `LibcIntegers`). `Numbers` holds what several components use.

Seven places where the code does not do what one may expect are proved with their exact conditions:

* `malloc` compares gaps with a 64-bit sum that wraps from a request of 2^64 - 72 on: it then grants the request in a
  gap that does not hold it, and what it leaves is well-formed if and only if the sum does not wrap, or the size comes
  to 0 and is served as 1 byte (`HeapLimits.MallocLimit`, `HeapLimits.WrappedRequest`).
* `allocate_new_page` counts pages in 32 bits, and the block goes into the new major without a further test: it lies
  inside if and only if the count does not wrap (`HeapLimits.GrowthLimit`, `HeapLimits.FourGigabytes`).
* `fma` with a zero addend rounds the product and adds the zero, so a negative product that underflows to zero
  plus `+0.0` gives `+0.0` (`Fma.ZeroAddend`, `Fma.ZeroAddendExample`).
* The JSON parser unwraps the errors of its probes for literals, so a text needs up to four bytes behind it;
  `JsonRoundTrip.ParsingUndoesPrinting` says how many each text needs.
* `print_integer` puts zero padding before the minus sign, so `strtoll` reads such a text as 0
  (`IntegerRoundTrip.StrtollUndoesPrint`).
* The comment on `strtoll` describes base 0, but the code returns 0 for every base below 2: the two agree if and only
  if all digits of the text are zeros (`StrtollComment.ValueAsDescribed`).
* `strtoll` steps over a leading zero before it looks for digits, so after a lone zero `*endptr` says that there were
  none (`StrtollComment.EndAsDescribed`).

## Model

| member | source | states |
|---|---|---|
| HeapLayout.AlignedSpot | src/liballoc/liballoc.c:23-36 | An aligned pointer is a multiple of 16, 16 to 31 bytes up, and the byte 16 below it, where the offset is kept, is not below the unaligned pointer |
| HeapLayout.UnalignUndoesAlign | src/liballoc/liballoc.c:23-46 | UNALIGN undoes ALIGN for every address |
| HeapLayout.MinorsFollow | src/liballoc/liballoc.c:430-513 | The minors of a major are in address order and do not overlap |
| HeapLayout.MinorInside | src/liballoc/liballoc.c:363-373 | Every minor, its header included, lies inside its major behind the major header |
| HeapLayout.MinorsApart | src/liballoc/liballoc.c:76-84 | Any two minors of a heap, in the same major or not, are disjoint, headers included |
| HeapLayout.GapsAreFree | src/liballoc/liballoc.c:208-213 | size - usage of a major is exactly the total length of its gaps |
| HeapLayout.GapWithinFree | src/liballoc/liballoc.c:326-327 | No gap is longer than size - usage, so the quick test of CASE 1 never skips a major with room |
| HeapLayout.FirstGapFrom | src/liballoc/liballoc.c:393-513 | The gap chosen within a major is the first, in address order, that holds size plus header |
| HeapLayout.FindFrom | src/liballoc/liballoc.c:312-343 | The major chosen in one pass is the first, in list order, with a gap that fits |
| HeapLayout.SearchIsComplete | src/liballoc/liballoc.c:297-356 | Wherever the search starts, it comes out empty if and only if no live major has a contiguous gap of size plus header |
| HeapLayout.PagesFor | src/liballoc/liballoc.c:181-194 | The fewest pages, at least 16, that hold the size and both headers |
| HeapLayout.InsertKeepsWellFormed | src/liballoc/liballoc.c:361-513 | Placing a block in a gap that holds it keeps order, disjointness and bounds |
| HeapLayout.AppendKeepsWellFormed | src/liballoc/liballoc.c:196-224 | Fresh pages become a major whose first gap takes the request they were asked for |
| HeapLayout.RemoveKeepsWellFormed | src/liballoc/liballoc.c:635-668 | Freeing keeps the heap well-formed and leaves no major without a minor |
| HeapLayout.ShrinkKeepsWellFormed | src/liballoc/liballoc.c:777-782 | Shrinking a request in place keeps the heap well-formed |
| HeapLayout.RemoveUndoesInsert | src/liballoc/liballoc.c:635-668 | Freeing the block just placed in a live major gives the old layout back |
| HeapLayout.RemoveUndoesNewMajor | src/liballoc/liballoc.c:654-667 | Freeing the only block of a new major gives the pages back and restores the layout |
| HeapLayout.InsertTotals | src/liballoc/liballoc.c:373-375 | A placement adds its size to the bytes in use and changes nothing held from the system |
| HeapLayout.RemoveTotals | src/liballoc/liballoc.c:637-664 | Freeing takes the size off the bytes in use, and the pages off those held exactly when the major empties |
| HeapLayout.UserRangeInside | src/liballoc/liballoc.c:377-379 | A user range is 16-aligned and inside its own minor, behind its offset byte |
| HeapLayout.UserRangesDisjoint | src/liballoc/liballoc.c:23-46 | No byte of a user range belongs to another minor, to a header or to any offset byte |
| HeapLinks.LinkInPlaces | src/liballoc/liballoc.c:485-494 | The header written into gap k and the two neighbour links represent the major with a minor there, in both directions of the list |
| HeapLinks.LinkOutDrops | src/liballoc/liballoc.c:640-648 | Unlinking a minor represents the major without it |
| HeapLinks.ReplaceLinks | src/liballoc/liballoc.c:642-645 | A change of links in one major leaves the links of all other majors intact |
| HeapLinks.AppendMajorHeader | src/liballoc/liballoc.c:348-353 | The two link updates after allocate_new_page represent the list with the new major at its end |
| HeapLinks.UnlinkDropsMajor | src/liballoc/liballoc.c:660-663 | The two link updates for an empty major represent the list without it |
| HeapSearch.MallocFails | src/liballoc/liballoc.c:297-356 | Below the 64-bit wrap, malloc returns NULL if and only if the page hook refuses and no live major has a contiguous gap |
| HeapSearch.MallocGrows | src/liballoc/liballoc.c:341-353 | Below the 64-bit wrap, new pages are taken if and only if no live major has a contiguous gap |
| HeapSearch.BestBetServes | src/liballoc/liballoc.c:300-310 | A best bet that looks large enough and has a gap that fits receives the block |
| HeapSearch.FirstFit | src/liballoc/liballoc.c:297-513 | While any live major has a gap that fits, no pages are asked for; the block goes to the lowest address at which it fits in its major, and to the first major in the list with room unless the best bet was tried first |
| HeapSearch.MallocKeepsWellFormed | src/liballoc/liballoc.c:227-558 | Below the 64-bit wrap, every outcome of malloc is a well-formed heap without empty majors |
| HeapSearch.FreeUndoesMalloc | src/liballoc/liballoc.c:635-668 | free(malloc(n)) restores the layout exactly, also when malloc took new pages; the counters are functions of the layout |
| HeapSearch.OwnerIsUnique | src/liballoc/liballoc.c:576-580 | A user pointer leads to one minor only |
| HeapBlocks.MallocBlocks | src/liballoc/liballoc.c:227-558 | malloc adds exactly the block it returns to the blocks callers hold |
| HeapBlocks.FreeBlocks | src/liballoc/liballoc.c:560-686 | free removes exactly the block it is given |
| HeapBlocks.ReallocBlocks | src/liballoc/liballoc.c:702-792 | realloc replaces exactly the block it is given by one of the new size |
| HeapBlocks.BlocksDisjoint | src/liballoc/liballoc.c:227-558 | Two live blocks share no byte, are 16-aligned, and neither holds the other's offset byte |
| HeapRuns.StepKeepsConsistent | src/liballoc/liballoc.c:227-792 | Every call by a caller that passes pointers it holds, a realloc to size 0 included, keeps the heap consistent |
| HeapRuns.Perform | src/liballoc/liballoc.c:227-792 | Every call of malloc, free or realloc on a valid heap, NULL pointers and size 0 included, is a step of a run and leaves the heap valid |
| HeapRuns.RunsKeepConsistent | src/liballoc/liballoc.c:227-792 | After any run of malloc, free and realloc from the empty heap, with sizes below the 64-bit wrap, every major has a minor and all minors are ordered and disjoint |
| HeapRuns.RunsKeepBlocksDisjoint | src/liballoc/liballoc.c:227-792 | After any such run, any two live blocks are disjoint and 16-aligned |
| HeapLimits.NeedExact | src/liballoc/liballoc.c:236-241 | The sum the tests compare with is the size with alignment room and header if and only if that is below 2^64 |
| HeapLimits.TestExact | src/liballoc/liballoc.c:394-398 | The test of a gap is right for all gaps of a major if and only if the sum does not wrap |
| HeapLimits.MallocLimit | src/liballoc/liballoc.c:297-513 | The exact condition: where malloc finds a gap it leaves a well-formed heap, the one of the model, if and only if the sum does not wrap, but for the size that wraps to 0 and is served as 1 byte |
| HeapLimits.WrappedRequest | src/liballoc/liballoc.c:394-398 | In every heap with a live major a request of 2^64 - 72 is granted and breaks the heap, where it should fail |
| HeapLimits.GrowthLimit | src/liballoc/liballoc.c:348-379 | The exact condition: the block put into a new major lies inside it if and only if the 32-bit page count does not wrap |
| HeapLimits.FourGigabytes | src/liballoc/liballoc.c:176-194 | For a block of 4 GiB 16 pages are asked for, and the block ends behind them |
| Liballoc.NewMajorFits | src/liballoc/liballoc.c:181-211 | A new major holds its request if and only if the size is at most 4 GiB less a page and two headers, where the 32-bit page computation does not wrap |
| Liballoc.SettledRepresents | src/liballoc/liballoc.c:363-380 | The header, links, counters and offset byte written by a placement represent the layout with the new minor |
| Liballoc.GrownRepresents | src/liballoc/liballoc.c:208-215 | What allocate_new_page and its caller write represents the layout with one more, empty, major |
| Liballoc.DroppedRepresents | src/liballoc/liballoc.c:637-648 | What free writes first represents the layout without the minor |
| Liballoc.ReleasedRepresents | src/liballoc/liballoc.c:654-667 | Releasing an empty major keeps root, best bet, links and counters right |
| Liballoc.ShrunkRepresents | src/liballoc/liballoc.c:777-782 | Rewriting req_size represents the shrunk block |
| Liballoc.UserWriteKeeps | src/liballoc/liballoc.c:34-35 | Whatever a caller writes within its block leaves the heap consistent |
| Liballoc.AtMoves | src/liballoc/liballoc.c:334-353 | From a major without room the loop goes on to the next, back to the root once, to fresh pages, or ends with NULL |
| Liballoc.Heap.AllocateNewPage | src/liballoc/liballoc.c:176-225 | The header of the new major and the counter of held bytes, in the 32-bit arithmetic of the original, for every size and answer of the hook |
| Liballoc.Heap.Align | src/liballoc/liballoc.c:23-36 | Moves the pointer up and stores the distance, touching one byte |
| Liballoc.Heap.Unalign | src/liballoc/liballoc.c:38-46 | Gives back the pointer that ALIGN moved to p and stored the distance of, and p itself when the byte is no distance |
| Liballoc.Heap.PlaceInEmpty | src/liballoc/liballoc.c:363-387 | CASE 2 places at the start of a major without minors |
| Liballoc.Heap.PlaceInFront | src/liballoc/liballoc.c:394-423 | CASE 3 places before the first minor |
| Liballoc.Heap.PlaceAtEnd | src/liballoc/liballoc.c:436-469 | CASE 4.1 places after the last minor |
| Liballoc.Heap.PlaceBetween | src/liballoc/liballoc.c:473-509 | CASE 4.2 places between two minors |
| Liballoc.Heap.PlaceBehind | src/liballoc/liballoc.c:436-505 | CASE 4 for one minor: places in the gap behind it if and only if the gap holds size plus header |
| Liballoc.Heap.PlaceIn | src/liballoc/liballoc.c:360-513 | The cases together place in the first gap that fits, or change nothing when there is none |
| Liballoc.Heap.Grow | src/liballoc/liballoc.c:348-353 | Links fresh pages in behind the last major, or changes nothing |
| Liballoc.Heap.Search | src/liballoc/liballoc.c:312-558 | Below the 64-bit wrap the search loop ends, by the measure (not yet grown, started at the best bet, majors left), with the outcome of malloc |
| Liballoc.Heap.Malloc | src/liballoc/liballoc.c:227-558 | Below the 64-bit wrap, the new layout, returned pointer and best bet for every start of the search and answer of the page hook; only the new offset byte changes |
| Liballoc.Heap.Free | src/liballoc/liballoc.c:560-686 | The layout without the block; the best bet is forgotten with its major or replaced only by a major that is not less free as a signed int; no byte changes |
| Liballoc.Heap.Memcpy | src/liballoc/liballoc.c:109-132 | Copies n bytes between disjoint ranges, word by word and then byte by byte, and nothing else |
| Liballoc.Heap.Resize | src/liballoc/liballoc.c:719-791 | Shrinks in place, or moves the block with all its bytes and frees the old one; a block without bytes is freed also when there is no room for the new one |
| Liballoc.Heap.Realloc | src/liballoc/liballoc.c:702-792 | The first min(old, new) bytes of the block are kept, and every other block stays where it is with all its bytes |
| SchedulerModel.Query | meta/scheduler4.py:121-137 | The first task whose affinity is unset or this CPU |
| SchedulerModel.RunKeepsTasks | meta/scheduler4.py:224-232 | Running a task on an idle CPU loses and duplicates no task |
| SchedulerModel.RunKeepsGood | meta/scheduler4.py:224-232 | It also keeps tasks in one place and affinities equal to CPUs |
| SchedulerTick.PassesKeep | meta/scheduler4.py:240-254 | After both rounds over a queue either every CPU has a task or the queue is empty; other queues are untouched |
| SchedulerTick.TickPlaces | meta/scheduler4.py:236-259 | A tick places min(CPUs, tasks) tasks on distinct CPUs, keeps all tasks, and takes nothing from queue j while a task is left in a queue before j |
| SchedulerPicks.FirstPassServes | meta/scheduler4.py:242-249 | In the affinity round the CPUs choose in turn, each the first task still waiting in the queue that is unbound or bound to it; a CPU without one is retried |
| SchedulerPicks.SecondPassTakes | meta/scheduler4.py:252-254 | In the second round each CPU takes the task at the front of the queue, so the tasks go in order to the CPUs from the last retried back |
| SchedulerPicks.TickMarks | meta/scheduler4.py:224-232 | Each task picked in a tick is bound to its CPU and has one more cycle; all else about it, and all about the others, is as before |
| SchedulerFix.SwapKeepsTasks | meta/scheduler4.py:205-217 | A swap permutes the running tasks |
| SchedulerFix.SwapKeepsGood | meta/scheduler4.py:205-217 | A swap leaves every task with affinity to its CPU |
| SchedulerFix.DisplacedWhen | meta/scheduler4.py:200-205 | The test on the other task's affinity always passes: running tasks have affinity to their own CPUs |
| SchedulerFix.SwapStep | meta/scheduler4.py:191-217 | A swap pops a displaced CPU and pushes one that is settled, so the loop's measure falls |
| SchedulerFix.FixFrom | meta/scheduler4.py:186-217 | At most one swap for each displaced CPU on the stack and one pop for each CPU and swap |
| SchedulerFix.FixSettles | meta/scheduler4.py:186-217 | At most 2k pops and k swaps for k busy CPUs; the tasks are permuted over the same CPUs, and no fewer run on the CPU they last ran on |
| SchedulerFix.FixMoves | meta/scheduler4.py:186-217 | Every busy CPU is looked at: a task that still last ran on another busy CPU after the pass is not the one its CPU held before; the pass changes something if and only if some task last ran on another busy CPU |
| SchedulerFix.FixRebinds | meta/scheduler4.py:205-217 | Of all the fields of all tasks only the affinities of running tasks change |
| SchedulerUpdate.ShiftKeepsTasks | meta/scheduler4.py:142-147 | Aging the queues by one level keeps all tasks |
| SchedulerMean.MeanIsExact | meta/scheduler4.py:163-163 | For sums up to 2^53 in size the floating-point quotient rounded up is the exact one rounded up |
| SchedulerMean.MeanIsLost | meta/scheduler4.py:163-163 | For a sum of 2^53 + 1 and one task it is not |
| SchedulerUpdate.UpdateKeepsTasks | meta/scheduler4.py:139-173 | A cycle's update loses and duplicates no task |
| SchedulerUpdate.UpdateMoves | meta/scheduler4.py:142-147 | A waiting task moves down one queue and keeps its place; into queue 0 it comes behind the tasks there |
| SchedulerUpdate.UpdateAges | meta/scheduler4.py:158-163 | A waiting task's sleeping grows by its base priority and the least integer that is at least the mean of base + running - sleeping over all waiting tasks, counting the tasks that ran in the divisor; every other field is as before |
| SchedulerUpdate.UpdateCounts | meta/scheduler4.py:166-170 | A task that ran has run once more and remembers its CPU, and every other field is as before; in the queues of their new depriority the tasks that ran come behind those that waited, in the order they started to run |
| SchedulerUpdate.QueueIdSteps | meta/scheduler4.py:92-94 | A lower depriority never gives a higher queue, one more raises the queue by at most one, the first queue takes all up to 1 and the last all from 128 on |
| SchedulerRuns.FirstPassMoves | meta/scheduler4.py:242-249 | In the affinity round a waiting task never falls back, and moves up or runs when a CPU wants it |
| SchedulerRuns.TickMoves | meta/scheduler4.py:236-259 | In a tick no waiting task falls back, and in queue 0 every task moves up or runs |
| SchedulerRuns.CycleMoves | meta/scheduler4.py:294-308 | A task that does not run in a cycle is one queue lower after it, or further up in queue 0 |
| SchedulerRuns.CycleRehomes | meta/scheduler4.py:294-308 | A task that a tick put away from the CPU it last ran on, though that one is busy, runs elsewhere in the cycle and remembers that CPU; when no task was, each runs where the tick put it |
| SchedulerRuns.RunsWithin | meta/scheduler4.py:290-310 | A task at place j of queue 0 runs within j + 1 cycles, and one in queue q within q + n |
| SchedulerRuns.NoStarvation | meta/scheduler4.py:290-310 | With at least one CPU and n tasks, a task waiting in queue q runs within q + n cycles |
| Scheduler.MultiCpuScheduler.PushTaskFirst | meta/scheduler4.py:97-105 | Adds the task behind the others of its queue |
| Scheduler.MultiCpuScheduler.QueryShortestPathId | meta/scheduler4.py:121-137 | The index found, and the affinity set when it was unset |
| Scheduler.MultiCpuScheduler.RunTaskQueued | meta/scheduler4.py:224-232 | Moves the task from its queue to the CPU and updates its fields |
| Scheduler.MultiCpuScheduler.PickAffine | meta/scheduler4.py:242-249 | The first round over a queue |
| Scheduler.MultiCpuScheduler.PickAny | meta/scheduler4.py:252-254 | The second round over a queue |
| Scheduler.MultiCpuScheduler.TickAll | meta/scheduler4.py:236-259 | Leaves the state that TickPlaces is about |
| Scheduler.MultiCpuScheduler.Steal | meta/scheduler4.py:193-219 | Swaps exactly when the task is displaced |
| Scheduler.MultiCpuScheduler.FixAffinity | meta/scheduler4.py:186-217 | Terminates in the state, pops and swaps that FixSettles is about |
| Scheduler.MultiCpuScheduler.TaskCount | meta/scheduler4.py:112-113 | The number of waiting and running tasks |
| Scheduler.MultiCpuScheduler.Sleep | meta/scheduler4.py:152-163 | Changes the sleeping of exactly the waiting tasks, by the rounded mean and the base priority |
| Scheduler.MultiCpuScheduler.UpdateRunnedTasks | meta/scheduler4.py:139-173 | Leaves the state that UpdateKeepsTasks, UpdateMoves, UpdateAges and UpdateCounts are about |
| Scheduler.MultiCpuScheduler.Simulate | meta/scheduler4.py:290-308 | Runs all cycles left, each a tick, an affinity pass and an update |
| JsonSyntax.Digits | src/parser/scanner.hpp:224-236 | The digits of a number stand for it |
| JsonSyntax.Tree | src/json/json.cpp:13-138 | Every value with quote-free strings and integers above INT_MIN has a text, with any white space between tokens, that stands for it |
| JsonRoundTrip.DocParses | src/json/json.cpp:13-138 | Every text of the grammar is parsed to its value with the cursor just behind it, if the bytes the probes look at are there, and otherwise breaks off the program |
| JsonRoundTrip.ParsingUndoesPrinting | src/json/json.cpp:13-138 | The exact condition: a text is parsed to its value if and only if it has the bytes it needs behind it; four always suffice |
| JsonRoundTrip.NeedAtMostFour | src/json/json.cpp:100-112 | No text needs more than four bytes behind it |
| JsonRoundTrip.PrintedValuesParse | src/json/json.cpp:13-138 | Parsing undoes printing for every printable value, white space, prefix and tail of four bytes |
| JsonRoundTrip.ShortTextTraps | src/parser/scanner.hpp:125-130 | Concrete texts without the bytes behind them that break off the program |
| JsonRoundTrip.DecimalLeads | src/parser/scanner.hpp:224-228 | The first digit of a number counts most: it is worth its value times a power of ten |
| JsonRoundTrip.ValuesExample | src/json/json.cpp:13-138 | One text with an object, two arrays, all literals, a string and numbers of both signs, and the value it is parsed to |
| JsonSoundness.ValueRead | src/json/json.cpp:13-138 | Wherever the parser returns a value it has read a text of the grammar with that value |
| JsonSoundness.ParsesExactlyTheGrammar | src/json/json.cpp:13-138 | A value is returned if and only if a text of the grammar with that value, with the bytes it needs behind it, stands at the cursor |
| JsonTraps.ErrorsExactly | src/json/json.cpp:13-138 | With five zero bytes at the end and numbers in range the parser never breaks off the program, and returns an error if and only if no text of the grammar stands at the cursor |
| JsonTraps.TrapsOnlyNearTheEnd | src/json/json.cpp:13-138 | It breaks off only at digits past INT_MAX, or within five bytes of the end of the buffer, behind the beginning of a text of the grammar |
| JsonTraps.MissingComma | src/json/json.cpp:86-95 | "[1 2]" with four bytes behind it is an error, and breaks off without them |
| JsonTraps.NothingThere | src/json/json.cpp:13-86 | White space up to the end of the buffer, alone or behind an opening bracket or brace, breaks off the program |
| JsonTraps.Unfinished | src/json/json.cpp:46-95 | A value and white space up to the end of the buffer: an array without its bracket breaks off the program, an object without its brace is an error |
| JsonTraps.WhiteSpace | src/parser/scanner.hpp:159-170 | Exactly the space, the tab, the line feed and the carriage return are passed over in front of a value |
| JsonParser.DecimalGrows | src/parser/scanner.hpp:224-228 | More digits never make a number smaller, so one overflow decides |
| JsonParser.Scanner.SkipBlanks | src/parser/scanner.hpp:159-170 | Moves the cursor over all white space |
| JsonParser.Scanner.Skip | src/parser/scanner.hpp:96-108 | Steps over the character if it is there |
| JsonParser.Scanner.SkipSpaced | src/parser/scanner.hpp:110-123 | Steps over white space and the character if it is there |
| JsonParser.Scanner.SkipString | src/parser/scanner.hpp:125-140 | Steps over the string if it is there; an error when too few bytes are left |
| JsonParser.Scanner.ReadUntil | src/parser/scanner.hpp:183-196 | What stands before the delimiter; an error when it does not come |
| JsonParser.Scanner.SkipInt | src/parser/scanner.hpp:198-236 | The signed number at the cursor, an error without a digit, no meaning past INT_MAX |
| JsonParser.ParseScalarValue | src/json/json.cpp:100-137 | The literals, strings and numbers of the grammar |
| JsonParser.ParseMemberKey | src/json/json.cpp:29-44 | A quoted key and its colon, or an error |
| JsonParser.ParseJsonObject | src/json/json.cpp:19-63 | The object loop, on the shared cursor |
| JsonParser.ParseJsonArray | src/json/json.cpp:67-98 | The array loop, on the shared cursor |
| JsonParser.ParseJsonValue | src/json/json.cpp:13-138 | The recursive parser computes what the grammar functions say; recursion decreases on the bytes remaining |
| JsonParser.Parse | src/json/json.cpp:140-148 | Parses a text from its start |
| IntegerText.EvalDigits | src/libc/printer.c:63-77 | The digits produced for a number, in any base and case, stand for it |
| IntegerText.EvalGrows | src/libc/stdlib.c:127-153 | Reading further digits never makes the number smaller |
| IntegerRoundTrip.NumberReads | src/libc/stdlib.c:85-168 | White space, a plus, a minus or no sign, the prefix of base 16 or 2 or none, and digits are read as the number they stand for, whatever follows that does not go on with it |
| IntegerRoundTrip.ZerosBeforeMinus | src/libc/stdlib.c:101-153 | Zeros before a minus are read as 0 |
| IntegerRoundTrip.StrtollUndoesPrint | src/libc/printer.c:40-104 | strtoll gives back what print_integer printed, for all bases, cases, widths and precisions, if and only if it was not a negative number padded with zeros |
| IntegerRoundTrip.ZeroPaddedMinusFive | src/libc/printer.c:88-101 | "%05d" of -5 prints "000-5", which reads as 0 |
| IntegerShape.PrintedShape | src/libc/printer.c:40-104 | A printed integer is padding characters in front, a minus or none, and digits in the case asked for: as many as the precision asks for or as the number needs, and padding up to the width and no further |
| IntegerShape.ShapeDecides | src/libc/printer.c:40-104 | That description leaves no choice: two texts that meet it with the same counts are the same |
| IntegerShape.DigitsCased | src/libc/printer.c:63-77 | Every digit belongs to the base, and its letters are capitals if and only if those are asked for |
| IntegerShape.FirstDigit | src/libc/printer.c:55-63 | Only zero has a leading zero, and it is one digit |
| IntegerShape.EvalLeads | src/libc/stdlib.c:125-165 | The first digit counts most: it is worth its value times a power of the base |
| IntegerShape.DigitsInOrder | src/libc/printer.c:66-73 | The digits are in the order of the characters, the first ten of them 0 to 9 |
| IntegerShape.CasedExample | src/libc/printer.c:72-72 | 255 in base 16 is "ff", and "FF" in upper case |
| LibcIntegers.PrintTarget.PrintPart | src/libc/printer.c:8-28 | Appends all to a file, and to a buffer as much as there is room for, keeping a place for the zero byte |
| LibcIntegers.PushDigits | src/libc/printer.c:55-78 | The digits DigitsCased and EvalDigits are about, written backwards |
| LibcIntegers.PadTo | src/libc/printer.c:81-101 | Padding in front, up to a length |
| LibcIntegers.PrintInteger | src/libc/printer.c:40-104 | Appends the text that PrintedShape and StrtollUndoesPrint are about to the target, cut to the room there is |
| StrtollComment.ValueAsDescribed | src/libc/stdlib.c:48-58 | The exact condition: the value is the one the comment describes if and only if the base is not 0 or all digits of the text are zeros |
| StrtollComment.EndAsDescribed | src/libc/stdlib.c:65-68 | The exact condition: *endptr is what the comment describes if and only if the number is not a lone zero and, in base 0, there are no digits |
| StrtollComment.NoValue | src/libc/stdlib.c:127-153 | Digits are worth 0 if and only if all of them are zeros |
| StrtollComment.CommentExamples | src/libc/stdlib.c:74-168 | "10" in base 0 is read as 0 where the comment says 10, and the end of "0" in base 10 is its start where the comment says 1 |
| LibcIntegers.ReadLongLong | src/libc/stdlib.c:74-168 | The number read and the place of *endptr, or no meaning past LLONG_MAX |
| LibcIntegers.PrintAndRead | src/libc/printer.c:40-104 | Printing into a buffer and reading it back gives the integer under the exact condition |
| Ieee.PackMag | src/libmath/fmod.c:77-84 | A mantissa packed at an exponent, normal or shifted down to a subnormal, has the magnitude it stands for |
| Ieee.MagOrder | src/libmath/fmod.c:23-28 | Comparing words without their signs compares magnitudes |
| Ieee.Normalise | src/libmath/fmod.c:31-52 | The mantissa with its top bit set and the exponent that goes with it, for normal and subnormal numbers |
| Rounding.RneNearest | src/libmath/fma.c:205-205 | The rounded quotient is nearest, ties to even |
| Rounding.RoundNearest | src/libmath/fma.c:251-251 | The rounded value is nearest to the exact one among all numbers of the format, ties to even, when it does not overflow |
| Rounding.RoundOverflows | src/libmath/scalbn.c:40-42 | Rounding overflows if and only if the exact value is at least the midpoint between the largest finite number and the next power of two |
| Rounding.RoundVanishes | src/libmath/scalbn.c:40-42 | Rounding gives zero if and only if the exact value is at most half the least subnormal |
| Rounding.MagRepresentable | src/libmath/fmod.c:87-88 | Every finite word of the format is a representable magnitude |
| Sticky.NearRound | src/libmath/fma.c:125-145 | A number and another in the same place between two units, as a sticky bit leaves it, round alike |
| Fmod.Subtract | src/libmath/fmod.c:55-72 | Subtracting the aligned divisor does not change the remainder |
| Fmod.Fmod | src/libmath/fmod.c:4-89 | The result is exactly |x| mod |y| with the sign of x, and NaN exactly for the invalid operands |
| Fmod.Reduce | src/libmath/fmodf.c:52-69 | The subtraction loop leaves the mantissa of the remainder, or reports zero |
| Fmod.Assemble | src/libmath/fmodf.c:70-85 | Renormalising terminates and the final shift into the subnormals loses no bit |
| Remquo.DifferenceExact | src/libmath/remquof.c:101-101 | Numbers within a factor of two of each other differ by a number of the format |
| Remquo.RoundsUpIsNearest | src/libmath/remquof.c:99-99 | The test for one more subtraction decides nearest with ties to even |
| Remquo.Remquof | src/libmath/remquof.c:4-107 | The result is exactly x - n*y for n the integer nearest x/y, ties to even; the quotient is n modulo 2^31 with the sign of x/y |
| Scalbn.Scalbn | src/libmath/scalbn.c:4-43 | The correctly rounded products come to x * 2^n rounded once, for every x and every integer n |
| Scalbn.PowerWord | src/libmath/scalbn.c:40-40 | The word with only an exponent field is 2^n |
| Scalbn.Binary64IsWide | src/libmath/scalbn.c:14-38 | double has the exponents 1023 and -1022 of the source and is wide against its precision |
| Scalbn.Binary32IsWide | src/libmath/sqrtf.c:49-49 | float has the bias of the source, fills a 32-bit word and is wide against its precision |
| Floats.TimesPower | src/libmath/scalbn.c:16-41 | A product with a power of two is the exact scaling rounded once |
| Scalbn.ThreeUp | src/libmath/scalbn.c:14-25 | What overflows in three upward steps overflows in one |
| Scalbn.ThreeDown | src/libmath/scalbn.c:26-39 | When three downward steps are taken the result is zero in one step too |
| Floats.ScaleDownTwice | src/libmath/scalbn.c:28-31 | Scaling down in two steps rounds once, when the first step leaves the precision of a normal number |
| SquareRoot.TryBit | src/libmath/sqrtf.c:62-68 | The comparison decides whether the trial bit belongs to the root |
| SquareRoot.NextBit | src/libmath/sqrtf.c:60-71 | One turn of the bit loop keeps ix*r = N - q^2 and s = 2q |
| SquareRoot.RootBounds | src/libmath/sqrtf.c:74-86 | The rounded mantissa h has (2h-1)^2 < N < (2h+1)^2: no tie is possible |
| SquareRoot.RootIsNearest | src/libmath/sqrtf.c:42-88 | The rounded mantissa at the halved exponent is nearest to the exact root among all numbers of the format |
| SquareRoot.FitsWord | src/libmath/sqrtf.c:60-71 | Within a turn no value overflows the signed word |
| SquareRoot.DoneFits | src/libmath/sqrtf.c:69-69 | Nor does the doubling of the last turn |
| SquareRoot.StateFits | src/libmath/sqrtf.c:56-71 | Before, between and after all turns every variable of the loop fits the signed word |
| SquareRoot.RootBits | src/libmath/sqrtf.c:56-71 | The bit loop ends with the integer root, and a remainder of zero exactly for squares, every variable fitting the signed word throughout |
| SquareRoot.Sqrtf | src/libmath/sqrtf.c:20-90 | Correctly rounded for every positive finite operand, subnormals included; the special operands as in the standard |
| SqrtWords.CarryAndBorrow | src/libmath/sqrt.c:153-164 | The carry and borrow tests do two-word addition and subtraction |
| SqrtWords.HighStep | src/libmath/sqrt.c:136-148 | A turn of the first loop is a turn of the one-word loop on the joined words |
| SqrtWords.LowStep | src/libmath/sqrt.c:151-169 | A turn of the second loop is too |
| SqrtWords.HighLoop | src/libmath/sqrt.c:133-148 | The first loop finds the high bits of the root, and ix0, s0 + 2r and q never reach the sign bit |
| SqrtWords.LowLoop | src/libmath/sqrt.c:150-170 | The second loop finds the low bits, and the signed words never reach the sign bit |
| SqrtWords.Binary64IsTwoWords | src/libmath/sqrt.c:84-100 | double splits into two 32-bit words with fraction bits in both |
| SqrtWords.NormaliseTwo | src/libmath/sqrt.c:105-122 | The two-word normalisation keeps the value it stands for |
| SqrtWords.RoundWords | src/libmath/sqrt.c:172-199 | Rounding and assembling in two words gives the word of the rounded root |
| SqrtWords.Sqrt | src/libmath/sqrt.c:82-200 | Correctly rounded for every positive finite operand, subnormals included |
| Words64.Clz64 | src/libmath/fma.c:5-30 | The number of leading zero bits |
| Words64.Mul64 | src/libmath/fma.c:68-79 | The exact product in two words |
| FmaParts.Binary64IsDoubleWord | src/libmath/fma.c:38-38 | double is a 64-bit word with the spare bits the mantissas of fma need |
| FmaParts.Normalize | src/libmath/fma.c:49-66 | Mantissa, exponent and sign of every operand, subnormals by an exact scaling; zeros, infinities and NaNs by their exponents |
| FmaSum.Align | src/libmath/fma.c:103-151 | Product and addend on one exponent, exact or with a sticky bit far below the other |
| FmaSum.SumRounds | src/libmath/fma.c:157-162 | The sum of the aligned words rounds like the exact sum |
| FmaSum.DifferenceRounds | src/libmath/fma.c:163-176 | The difference of the aligned words has the sign of the exact difference and rounds like it |
| FmaSum.AddWords | src/libmath/fma.c:159-161 | Two-word addition |
| FmaSum.SubWords | src/libmath/fma.c:165-174 | Two-word subtraction, negated when it came out negative |
| FmaRound.TakeTop | src/libmath/fma.c:179-199 | The top 63 bits, sticky, round like the whole |
| FmaRound.NormalResult | src/libmath/fma.c:205-251 | In the normal range converting and then scaling rounds once |
| FmaRound.DroppedResult | src/libmath/fma.c:241-249 | Below the normal range, dropping ten bits, sticky, leaves one rounding |
| FmaRound.WithTopBit | src/libmath/fma.c:225-232 | One bit below the normal range, the added top bit leaves one rounding |
| FmaRound.Finish | src/libmath/fma.c:202-251 | Conversion and scaling together round the exact value once, in every range |
| Fma.Combine | src/libmath/fma.c:98-251 | For nonzero finite operands the result is the exact x*y + z rounded once |
| Fma.Fma | src/libmath/fma.c:81-252 | One rounding for all nonzero finite operands, subnormal and overflowing results included; the plain expression for the others. What that comes to for every kind of operand is said by FmaNearest, ZeroFactor and SpecialOperands |
| Fma.ZeroAddend | src/libmath/fma.c:93-94 | With a zero addend the result is the correctly rounded product unless the product is negative, at most half the least subnormal, and the addend +0.0; then it is not |
| Fma.ZeroAddendExample | src/libmath/fma.c:93-94 | For the words of the least subnormal, its negative and 0.0 fma returns 0.0 where one rounding gives -0.0 |
| FloatLaws.SpecialOperands | src/libmath/fma.c:89-96 | The result is NaN exactly for a NaN operand, zero times infinity, or an infinite product and an opposite infinite addend; an infinite product gives the infinity of its sign, and with finite factors an infinite addend is the result |
| FloatLaws.ZeroFactor | src/libmath/fma.c:89-90 | With a zero factor and a finite one the result is the addend; if that is zero too, the sum of two zeros, negative only from two negative ones |
| FloatLaws.FmaNearest | src/libmath/fma.c:81-252 | For all finite operands the result is the exact x*y + z rounded once, with no number of the format nearer and overflow from the midpoint on, except exactly where a positive zero addend takes the sign from a negative product that vanishes; an exact zero has its sign from the signs of the operands |
| FloatLaws.AddNearest | src/libmath/remquof.c:99-101 | A sum of finite numbers has no number of the format nearer to the exact sum, overflow and the signs of zeros included |
| FloatLaws.ScaleNearest | src/libmath/scalbn.c:4-43 | The scaled value has no number of the format nearer to x * 2^n, overflow, underflow, zeros, infinities and NaN included |
| FloatLaws.WordKinds | src/libmath/fma.c:49-66 | The words above that of an infinity are NaNs and those below it finite, and the top bit is the sign |

## Left out

- Heap headers are kept in tables by address beside the bytes, not in the bytes themselves; that no header meets a user range or an offset byte is proved, so the two never overlap.
- Liballoc.Heap.Malloc: for requests below 2^64 - 72, and when the page hook answers with pages, for sizes whose page count does not wrap; what happens past these limits is in `HeapLimits`. The best bet is only known to be NULL or live and no less free than the majors passed over in the last pass; it is a hint.
- Liballoc.Heap.Resize: growing a block that has bytes requires that the inner malloc finds room, because the original copies to NULL otherwise.
- Liballoc.Heap.Realloc: the same; for a block without bytes a failing malloc is covered.
- liballoc locks, DEBUG printing, warning counters, magic-number traps and `calloc`: calls are sequential and pass NULL or live pointers.
- Floating-point exception flags, NaN payloads and signs, and rounding modes other than nearest-even.
- Fma.Fma: when the result rounds up to the least normal number the detour through float is modelled by its value.
- Extended evaluation (`double_t` wider than double) in `scalbn` and `fma`.
- `remquo.c`, which subtracts mantissas also when the exponents differ by one; only `remquof.c` is modelled. The other libm functions: polynomials and tables are not integer arithmetic.
- Scheduler.MultiCpuScheduler.QueryShortestPathId: without the sibling search, which `tick_all` never asks for.
- Scheduler.MultiCpuScheduler.Sleep: the mean is the exact quotient rounded up, which is what the original computes for sums up to 2^53 (`SchedulerMean.MeanIsExact`).
- `tick_force`, task names, printing, and `scheduler5.py`.
- The names of errors: a failed parse is one error, whatever its message; the cursor it leaves is not described.
- JSON accessors (`get`, `as_number` and the like) and the moving and copying of values.
- `print_impl`, which reads a variable argument list, and `fwrite`, which is taken to accept all it is given.
- LibcIntegers.PrintInteger: requires that the text and its zero byte fit the original's 64-byte buffer, which it does not check, and that the value is not `LLONG_MIN`, whose negation has no meaning in C.
- LibcIntegers.ReadLongLong: `*endptr` is not described for numbers past LLONG_MAX, whose reading has no meaning in C.
