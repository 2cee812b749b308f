# A verified model of the SpiderMonkey runtime core

This project models the self-contained algorithms of the JavaScript engine in `js/src` and proves what its code and
comments promise about them. Seven components are covered:

- **Arena pools** (`Arena`, `ArenaAnswers`, `ArenaRuns`, `ArenaPool`): bump allocation in a list of arenas, growing,
  freeing out of order, marks. The pool is modelled twice: as a value, where the invariant and the runs are proved,
  and as an object whose methods run the code's loops and are proved to do what the value model does. Addresses are
  32-bit words, and the bytes behind them are a map.
- **Array algorithms** (`MergeSort`, `ArraySort`, `ArrayIndex`, `ArrayObject`, `ArraySplice`): the merge sort on two
  buffers with a comparator that may fail or be inconsistent, `sort` and `splice` on arrays with holes, and array
  indices as property names.
- **Local roots** (`LocalRoots`, `LocalRootRuns`, `LocalRootStack`): scopes of GC roots in a list of chunks of 256
  words, with the scope marks stored among the roots.
- **Context life cycle** (`ContextLife`): contexts created and destroyed by many threads, the first bringing the
  runtime up and the last taking it down.
- **Dates** (`DateMath`, `DateText`, `DatePrint`, `DateRoundTrip`, `DateForms`, `DateZones`, `DateKnown`): the
  calendar arithmetic of section 15.9.1 of ECMA-262 3rd edition on integers, the hand-written date parser, and the
  two printed forms.
- **Heap dump** (`HeapSearch`, `HeapHunt`, `HeapWalk`, `HeapDepth`, `HeapDump`): the walk that keeps its stack in
  sibling and parent links and frees nodes as it leaves them.
- **Shared tables** (`Traps`, `TrapAnswers`, `TrapClear`, `Atomize`, `AtomAnswers`, `AtomList`): two protocols that
  let go of a lock and check a counter afterwards, and the numbering of atoms.

Where threads are involved, what one thread does between taking and releasing the lock is one step, and the theorems
quantify over all sequences of steps.

## What the proofs brought out

- Parsing a printed date does not always give the date back. `GMTRoundTrip` and `FullRoundTrip` give the exact
  conditions: years below 100 are lost (below 70 they are syntax errors, from 70 on they move by 1900 years), and so
  are zone offsets of 1 to 23 minutes, which are read as hours.
- A zone offset of less than an hour east, such as `GMT+0:30`, is read as west (`ParseOffset`).
- The comment at `EquivalentYearForDST` (`js/src/jsdate.c:356-360`) says the remap has not been proven; `DSTQueryAgrees`
  proves it.
- A NUL inside a property name ends it for `js_IdIsIndex`: `NulHidesTheRest` says for which names that makes the
  answer wrong. Array names are assumed NUL-free.
- A scope mark does not survive its tagged form if it is between 2^30 and 2^32 - 2^30 (`MarkSurvives`), so a local root
  stack must stay below 2^30 words; the mark that stands for no scope is above that range.
- An atom requested as pinned may come back unpinned if another thread added it meanwhile (`FlagsAreSet`, and
  `PinIsLost` for a run).
- The optimistic counters are sound as long as fewer than 2^32 changes happen while a thread is away
  (`CounterComesRound`, `GenerationComesRound`); with more they fail, in runs that `TwinTrapsAfterAll`,
  `LostLinkAfterAll` and `TwinsAfterAll` give.
- If writing the "..." of a cut chain fails, `DumpNode` returns with the parent links still reversed
  (`js/src/jsapi.c:2203-2206`), contrary to the comment at its restoring loop; no other failing write does that
  (`HeapDump.DumpNode`). The walk then still frees every node if each of the levels concerned has a sibling to come
  (`TurnedFate`, `FateIsSound`), and otherwise fails its assertion on the depth (`ListStopsShort`, `DumpList`) or goes
  on at a freed node (`FanDangles`).

## Model

| member | source | states |
|---|---|---|
| Arena.InitIsValid | js/src/jsarena.c:62-81 | a pool fresh from initialisation meets every invariant of the allocator |
| Arena.OversizedHasHeader | js/src/jsarena.c:84-119 | an arena carries a back-pointer header exactly when it has handed out more than `arenasize` bytes, and the header names its predecessor |
| Arena.HeldOnce | js/src/jsarena.c:130-186 | no two arenas hold the same live allocation in [base, avail) |
| Arena.OversizedOwnsArena | js/src/jsarena.c:84-119 | an allocation above `arenasize` starts at its arena's base and is that arena's only tenant |
| Arena.AllocateIsValid | js/src/jsarena.c:130-186 | an allocation, whether it fits the current arena or needs a new plain or oversized one, or fails, leaves all invariants intact |
| Arena.FreeIsValid | js/src/jsarena.c:318-380 | freeing out of order, by retracting or by unlinking an arena from the middle, re-aims `current` and the successor's header so that the invariants hold |
| Arena.ReleaseIsValid | js/src/jsarena.c:272-316 | releasing to a legal mark drops just the later arenas and the allocations above the mark, and keeps the invariants |
| Arena.ReallocIsValid | js/src/jsarena.c:188-248 | moving a filled arena by realloc relinks predecessor, `current` and the successor's header, and keeps the invariants |
| Arena.GrowIsValid | js/src/jsarena.h:159-177 | growing in place, by realloc or by copying keeps the invariants on every route |
| Arena.RouteFacts | js/src/jsarena.h:159-177 | which of the three routes a grow takes, told from the pool alone, and what each route needs |
| ArenaAnswers.AllocateAnswers | js/src/jsarena.c:130-186 | an allocation succeeds if and only if the current arena has room or malloc gives a block; it is put at the cursor in the first case and at the base of a new last arena in the second; on failure nothing changes |
| ArenaAnswers.RoundedUp | js/src/jsarena.h:117 | what is set aside for an allocation is a multiple of the alignment, and less than one alignment more than asked for |
| ArenaAnswers.AlignedIsMultiple | js/src/jsarena.h:117 | the aligned numbers are the multiples of the alignment |
| ArenaAnswers.FreeUndoesAllocate | js/src/jsarena.c:318-380 | freeing what was just allocated gives back the pool as it was, whether it was put in an arena or in a new one |
| ArenaAnswers.FreeAnswers | js/src/jsarena.c:318-380 | freeing takes away that allocation only: the arena it started goes and the others keep place and cursor, or its arena's cursor comes back to it |
| ArenaAnswers.GrowAnswers | js/src/jsarena.h:159-177 | a grow succeeds if and only if there is room in place, room behind the cursor for a copy, or a block; which of them, where to, and that no other allocation changes |
| ArenaRuns.StepIsValid | js/src/jsarena.c:130-380 | every legal call of the allocator preserves the invariant |
| ArenaRuns.RunIsSound | js/src/jsarena.c:130-380 | after any run of allocate, grow, mark, release and free: live allocations are aligned, pairwise disjoint and each in exactly one arena; `current` is the last arena; an arena over `arenasize` has a header naming its predecessor, and no other has one |
| ArenaRuns.SoundPool | js/src/jsarena.c:84-119 | the same in plain words for any valid pool |
| ArenaRuns.ReleaseRestores | js/src/jsarena.h:179-208 | releasing to a mark gives back the marked pool, arenas and live allocations, from any later state that only added to it |
| ArenaRuns.StepKeepsSince | js/src/jsarena.h:179-208 | each call that touches only what was allocated after a mark keeps the pool an extension of the marked one |
| ArenaRuns.MarkReleaseIsAStack | js/src/jsarena.h:179-208 | from the marked pool on, after any run of allocations, grows, frees and nested marks above the mark, the matching release restores exactly the marked pool |
| ArenaPool.GrowKeepsBytes | js/src/jsarena.c:188-266 | a grow carries over the first `size` bytes of what it grows and every byte of every other allocation |
| ArenaPool.HeaderIsClear | js/src/jsarena.c:84-88 | writing only the bytes of a live allocation leaves every back-pointer word alone, and setting a back-pointer leaves every live allocation alone |
| ArenaPool.HeadersAreApart | js/src/jsarena.c:84-88 | the back-pointer word of an oversized arena does not overlap another arena's |
| ArenaPool.GrowKeepsHeaders | js/src/jsarena.c:188-266 | the bytes that a grow moves spare the back-pointer word of every arena but the one that realloc replaces |
| ArenaPool.AddressIdentifies | js/src/jsarena.c:130-186 | no two arenas share an address, so following `current` or a link finds one arena |
| ArenaPool.HeaderLeadsHome | js/src/jsarena.c:318-345 | the word before an oversized allocation leads to its arena's predecessor |
| ArenaPool.MarkInOneArena | js/src/jsarena.h:194-208 | the unsigned wrapping test of a release holds for the arena of the mark and for no other, so the one-step retraction and the search agree |
| ArenaPool.JSArenaPool.constructor | js/src/jsarena.c:62-81 | builds the empty pool, with the embedded first arena current |
| ArenaPool.JSArenaPool.Allocate | js/src/jsarena.h:143-154 | the inline fast path and its fall-back do what the allocation of the value model does, of which AllocateAnswers says when it succeeds and where |
| ArenaPool.JSArenaPool.ArenaAllocate | js/src/jsarena.c:130-186 | the search from `current` and the linking of a new arena do what the allocation of the value model does |
| ArenaPool.JSArenaPool.LinkNewArena | js/src/jsarena.c:154-176 | the size computation with its overflow test; a plain or an oversized arena is appended only when malloc gives a block |
| ArenaPool.JSArenaPool.FollowHeader | js/src/jsarena.c:84-119 | the header of an oversized allocation gives the position of its arena |
| ArenaPool.JSArenaPool.FreeAllocation | js/src/jsarena.c:318-380 | frees by header or by search and meets the value model |
| ArenaPool.JSArenaPool.ArenaRealloc | js/src/jsarena.c:188-248 | moves a filled arena and its bytes as the value model says, and changes nothing when realloc fails |
| ArenaPool.JSArenaPool.ReplaceArena | js/src/jsarena.c:222-247 | after realloc: the payload is realigned and every link to the moved arena is re-aimed |
| ArenaPool.JSArenaPool.RelinkMoved | js/src/jsarena.c:222-234 | `current` and the successor's header follow a moved arena |
| ArenaPool.JSArenaPool.FillingArena | js/src/jsarena.c:194-205 | the arena an allocation fills is found by its header, or is the current one |
| ArenaPool.JSArenaPool.Grow | js/src/jsarena.h:159-177 | the inline grow meets the value model; the grown bytes and everybody else's bytes are kept |
| ArenaPool.JSArenaPool.ArenaGrow | js/src/jsarena.c:250-266 | oversized allocations are reallocated, others copied to a new place |
| ArenaPool.JSArenaPool.Mark | js/src/jsarena.h:179 | a mark is the end of what the last arena has handed out |
| ArenaPool.JSArenaPool.Release | js/src/jsarena.h:194-208 | the retract-only path and the searching path leave the same pool, that of the value model |
| ArenaPool.JSArenaPool.ArenaRelease | js/src/jsarena.c:301-316 | the search for the arena of the mark ends there, and all later arenas go |
| ArenaPool.JSArenaPool.FreeArenaList | js/src/jsarena.c:272-299 | frees exactly the arenas after the given one and makes that current |
| MergeSort.Sort | js/src/jsarray.c:890-966 | on success a permutation for any comparator, even an inconsistent one; sorted and stable for a total preorder; it fails only if the comparator does on two of the elements, and then the caller's or the scratch vector still holds a permutation |
| MergeSort.StableSortIsUnique | js/src/jsarray.c:886-889 | sorted and stable leave only one possible result, so `Sort` has no freedom in it |
| MergeSort.MergeArrays | js/src/jsarray.c:829-884 | two adjacent runs are merged stably, copied outright if already in order; nothing outside them changes |
| MergeSort.MergeElements | js/src/jsarray.c:860-883 | the merge loop: the merged run is a stable rearrangement of both, whatever the comparator answers a permutation |
| MergeSort.SortChunk | js/src/jsarray.c:915-932 | insertion sort of one chunk of four, by swaps through the scratch vector |
| MergeSort.SinkElement | js/src/jsarray.c:918-931 | one element sinks to its place and never past an equal one |
| MergeSort.SortChunks | js/src/jsarray.c:911-933 | all chunks are sorted and nothing else moves |
| MergeSort.MergePass | js/src/jsarray.c:945-957 | one pass doubles the run length and leaves a permutation in the other vector |
| MergeSort.UnderwayTakesFirst | js/src/jsarray.c:862-879 | taking the first run's head when the heads compare equal keeps the merge sorted and stable |
| MergeSort.UnderwayTakesSecond | js/src/jsarray.c:862-879 | taking the second run's head, strictly smaller, keeps the merge sorted and stable |
| MergeSort.InOrderRunsAreMerged | js/src/jsarray.c:848-855 | runs already in order need only be copied |
| ArrayIndex.IdIsIndex | js/src/jsarray.c:83-127 | the wrapping digit loop answers as the reference definition of an array index does, on the name up to its first NUL |
| ArrayIndex.StringIndex | js/src/jsarray.c:83-127 | a string denotes index n if and only if it is the canonical decimal of n and n < 2^32 - 1 |
| ArrayIndex.WhereIndicesEnd | js/src/jsarray.c:83-127 | 4294967294 is the last index; signs, leading zeros and the empty string make none; ids are integers up to 2^30 - 1 |
| ArrayIndex.NulFreeIndex | js/src/jsarray.c:83-127 | on names without NUL the scanner's answer is the reference answer, long names included |
| ArrayIndex.NulHidesTheRest | js/src/jsarray.c:83-127 | for every string, the scanner answers as the reference does if and only if the string has no NUL, is too long to be looked at, or has no index before its first NUL |
| ArrayIndex.NulIsPassedOver | js/src/jsarray.c:83-127 | a concrete name with a NUL inside that the scanner takes for index 5 although it is no index |
| ArrayIndex.BigIndexToId | js/src/jsarray.c:201-242 | the digit loop prints the one id of the index, which reads back as that index; there is no id just when none is to be made, the class keeps its names as atoms and no atom has this name |
| ArrayIndex.IndexIdRoundTrip | js/src/jsarray.c:201-242 | the id made for an index denotes that index |
| ArrayIndex.IndexIdInjective | js/src/jsarray.c:201-242 | different indices get different ids |
| ArrayIndex.ScanDecides | js/src/jsarray.c:105-124 | the overflow test on the last-but-one value decides just whether the wrapped result is the true one |
| ArrayObject.JSArray.Get | js/src/jsarray.c:250-282 | reads the element or the hole at an index |
| ArrayObject.JSArray.Set | js/src/jsarray.c:287-300 | stores an element, pads with holes and raises the length when the index is new; other properties are untouched |
| ArrayObject.JSArray.Delete | js/src/jsarray.c:302-317 | leaves a hole and nothing else changed |
| ArrayObject.JSArray.SetOrDelete | js/src/jsarray.c:323-333 | moves a hole as a hole |
| ArrayObject.JSArray.SetLength | js/src/jsarray.c:391-448 | deletes exactly the elements in [newlen, oldlen), by whichever branch, and no other property |
| ArrayObject.JSArray.DeleteDense | js/src/jsarray.c:407-413 | the counting loop deletes the elements in [newlen, oldlen) |
| ArrayObject.JSArray.DeleteSparse | js/src/jsarray.c:422-441 | the iteration over all properties deletes the same elements as the counting loop |
| ArrayObject.WrappingRangeTest | js/src/jsarray.c:428-436 | the wrapping subtraction tests newlen <= index < oldlen |
| ArraySplice.Splice | js/src/jsarray.c:1337-1450 | the array becomes a[..begin] + items + a[end..], holes kept as holes, and a[begin..end] is returned, for every start and count |
| ArraySplice.RangeIsStandard | js/src/jsarray.c:1356-1388 | start and count are clamped as section 15.4.4.12 of ECMA-262 3rd edition says; without a count everything to the end goes |
| ArraySplice.MakeRoom | js/src/jsarray.c:1419-1442 | whichever way the overlapping move runs, each tail element lands where it should and the head stays |
| ArraySplice.ShiftUp | js/src/jsarray.c:1420-1431 | moving the tail up from its end overwrites nothing still to be moved |
| ArraySplice.ShiftDown | js/src/jsarray.c:1432-1441 | moving the tail down from its start overwrites nothing still to be moved |
| ArraySplice.CopyOut | js/src/jsarray.c:1391-1417 | the deleted elements are copied to a new array, holes and length included |
| ArraySplice.InitArrayElements | js/src/jsarray.c:732-743 | stores the items one after another |
| ArraySplice.SpliceMeets | js/src/jsarray.c:1419-1449 | shifted tail, items and final length together are the spliced sequence |
| ArraySort.Sort | js/src/jsarray.c:1063-1222 | defined values stably sorted, then all undefineds, then all holes; length, other properties, and the multiset of the elements as before; it fails only if the comparator does on two of the values, and then nothing has changed |
| ArraySort.ArrangedCounts | js/src/jsarray.c:1194-1219 | the values and the number of undefineds can be read off the arranged array |
| ArraySort.SortingKeepsCounts | js/src/jsarray.c:1063-1222 | the array after sorting has the same values as before, rearranged, and as many undefineds and holes |
| ArraySort.Gather | js/src/jsarray.c:1137-1163 | collects the defined values in order, counts the undefineds, and knows whether all are strings |
| ArraySort.Scatter | js/src/jsarray.c:1194-1219 | writes values, then undefineds, then deletes the tail |
| ArraySort.DefaultIsConsistent | js/src/jsarray.c:974-1042 | without a compare function the comparison is a total preorder |
| ArraySort.CompareIsOrder | js/src/jsstr.c:2718-2748 | a string comes first if and only if it is a prefix of the other or has the smaller character where they first differ |
| ArraySort.FunctionIsConsistent | js/src/jsarray.c:1014-1042 | a compare function whose answers are at most zero exactly where an order holds, and not numbers only where it holds, makes sorting go by that order |
| ArraySort.FailureIsTheCallers | js/src/jsarray.c:974-1042 | sorting is refused only if the compare function fails on two of the values, or a value has no string |
| ArraySort.CountOf | js/src/jsarray.c:1137-1163 | values, undefineds and holes as counted are the array's contents, element by element |
| ArraySort.DefinedJoin | js/src/jsarray.c:1137-1163 | the gathered values of two arrays joined are those of the one and then those of the other: gathering keeps the order |
| ArraySort.StringsAgree | js/src/jsarray.c:1044-1054 | the short-cut comparator for strings orders as the general one does |
| LocalRoots.MarkSurvives | js/src/jscntxt.c:607-631 | a scope mark survives being stored as a tagged integer if and only if it is below 2^30 or in the last 2^30 words |
| LocalRoots.EnterOpensScope | js/src/jscntxt.c:607-631 | entering adds one empty scope on top |
| LocalRoots.PushAppends | js/src/jscntxt.c:764-798 | pushing appends to the top scope and leaves the outer ones alone |
| LocalRoots.LeavePops | js/src/jscntxt.c:633-703 | leaving drops the top scope and hands a GC-thing result to the scope below, if there is one |
| LocalRoots.ForgetRemovesOne | js/src/jscntxt.c:705-762 | forgetting removes exactly one occurrence from the top scope, or nothing, and never touches outer scopes |
| LocalRoots.TraceReportsAll | js/src/jscntxt.c:800-829 | tracing reports every root of every scope, as often as it was pushed, and nothing else |
| LocalRoots.TraceReportsOnce | js/src/jscntxt.c:800-829 | no slot is reported twice and no saved mark is ever reported |
| LocalRootRuns.StepRefines | js/src/jscntxt.c:607-798 | each operation on words and marks is the same operation on a stack of scopes, with the outermost result set aside |
| LocalRootRuns.RunRefines | js/src/jscntxt.c:607-829 | every run of enter, push, leave and forget is a run on a stack of scopes, and tracing at its end reports that stack's roots and nothing else |
| LocalRootStack.JSLocalRootStack.Push | js/src/jscntxt.c:764-798 | the chunked push appends a word; the number of chunks stays ceil(rootCount / 256), also when malloc fails |
| LocalRootStack.JSLocalRootStack.EnterScope | js/src/jscntxt.c:625-630 | pushes the old mark and moves the mark to it |
| LocalRootStack.JSLocalRootStack.LeaveScope | js/src/jscntxt.c:633-703 | frees the chunks above the mark, restores the outer mark and re-roots the result, as the value model says |
| LocalRootStack.JSLocalRootStack.FreeChunksAbove | js/src/jscntxt.c:651-660 | frees just the chunks that hold nothing below the mark |
| LocalRootStack.JSLocalRootStack.ForgetRoot | js/src/jscntxt.c:705-762 | the search across chunks and the overwrite by the last root meet the value model |
| LocalRootStack.JSLocalRootStack.SearchDown | js/src/jscntxt.c:730-747 | the search finds the topmost occurrence in the top scope or stops at the mark, across chunk boundaries |
| LocalRootStack.JSLocalRootStack.TraceLocalRoots | js/src/jscntxt.c:800-829 | the nested loops over chunks and marks produce the trace of the value model |
| LocalRootStack.JSContext.EnterLocalRootScope | js/src/jscntxt.c:607-631 | makes the stack when there is none and opens a scope; it fails, and changes no scope, if and only if memory for the stack or for a needed chunk is refused |
| LocalRootStack.JSContext.PushLocalRoot | js/src/jscntxt.c:764-798 | roots the value in the open scope if and only if a chunk has room or is given and the count does not wrap; it reports failure also from 2^31 words on |
| LocalRootStack.JSContext.LeaveLocalRootScopeWithResult | js/src/jscntxt.c:633-703 | an outermost scope's GC-thing result goes to lastInternalResult and the stack is freed; an inner one's goes to the outer scope |
| LocalRootStack.JSContext.ForgetLocalRoot | js/src/jscntxt.c:705-762 | forgets from the open scope, and does nothing when none is open |
| ContextLife.StepIsValid | js/src/jscntxt.c:236-316 | every step of every thread keeps the life-cycle invariant, and the source's assertions hold where it meets them |
| ContextLife.RunIsSafe | js/src/jscntxt.c:236-434 | over every interleaving: UP has contexts, DOWN and LANDING have none, LAUNCHING has just the launching one; assertions never fail; at most one thread initialises or tears down; no context is in its caller's hands except while the runtime is UP with nobody doing either |
| ContextLife.HandedOut | js/src/jscntxt.c:236-316 | over every run: a context is in the caller's hands if and only if its call ended with a successful callback, and then it was linked, initialised, brought the runtime up and announced it if it was first, and nothing failed |
| ContextLife.CallSucceeds | js/src/jscntxt.c:253-316 | in every run in which no step of a linked context's own thread fails, four of them at most put it into the caller's hands, whatever the others do |
| ContextLife.LinkedUnlessOthersAreAtIt | js/src/jscntxt.c:236-252 | over every run: a thread sleeps if and only if another is bringing the runtime up or taking it down; otherwise its context is appended, as first if there is none |
| ContextLife.LeavingEnds | js/src/jscntxt.c:341-434 | a context that leaves is gone after two steps, however many others come between; the last takes the runtime down, any other leaves it as it is |
| ContextLife.SleepersAwaitSomeone | js/src/jscntxt.c:237-249 | whenever a thread sleeps there is a thread it waits for, and that one can take a step |
| ContextLife.StepBringsNearer | js/src/jscntxt.c:301-309 | each step of the awaited thread brings the announcement nearer; no other thread's step puts it off |
| ContextLife.SleepersAreWoken | js/src/jscntxt.c:301-309 | in every run in which the awaited thread takes its at most five steps, all sleepers are woken: no wake-up is lost |
| ContextLife.JSRuntime.Link | js/src/jscntxt.c:236-252 | one turn of the waiting loop links the context, as first or not, or puts its thread to sleep; its two assertions hold |
| ContextLife.JSRuntime.ComeUp | js/src/jscntxt.c:305-308 | announcing that the runtime is up wakes every sleeper |
| ContextLife.JSRuntime.UnlinkContext | js/src/jscntxt.c:346-354 | the context leaves the list, and the last one puts the runtime in LANDING; the assertion holds |
| ContextLife.JSRuntime.GoDown | js/src/jscntxt.c:425-428 | announcing that the runtime is down wakes every sleeper |
| ContextLife.RemoveFacts | js/src/jscntxt.c:346-353 | unlinking takes the one context off the list and leaves the rest in order |
| DateMath.Modulo | js/src/jsdate.c:177-185 | a C remainder moved up when negative is the mathematical modulus |
| DateMath.YearLength | js/src/jsdate.c:187-195 | consecutive years join without gap or overlap |
| DateMath.EstimateIsClose | js/src/jsdate.c:197-210 | the estimate by the mean year is never more than one year off, for every integer time |
| DateMath.YearFromTimeIsRight | js/src/jsdate.c:197-210 | after one correction the year is the one and only year that contains the time, for every integer time |
| DateMath.MonthAndDate | js/src/jsdate.c:227-302 | the two comparison chains give the calendar month and day of that year |
| DateMath.MonthsAddUp | js/src/jsdate.c:218-223 | the table of first days is the running sum of the ECMA-262 month lengths |
| DateMath.MakeDayCarries | js/src/jsdate.c:318-337 | any month, negative or over eleven, is carried into the year |
| DateMath.TimeOfDay | js/src/jsdate.c:429-463 | hour, minute, second and millisecond are in range and make up the time of day |
| DateMath.ComposeDecomposed | js/src/jsdate.c:227-339 | composing the extracted fields gives back every integer time, and the fields are a calendar date |
| DateMath.DecomposeComposed | js/src/jsdate.c:318-339 | year, month, day and time of day of a composed valid date are recovered unchanged |
| DateMath.TimeOfDayRecovered | js/src/jsdate.c:429-463 | the clock fields of a composed time are recovered unchanged |
| DateMath.EquivalentYear | js/src/jsdate.c:341-376 | the tabulated year lies in 1971..1996, has the same length and starts on the same weekday, for every year |
| DateMath.DSTQueryAgrees | js/src/jsdate.c:381-404 | the remapped time of the DST query lies in 1971..1996 and keeps leap status, month, date, weekday and time of day, for every out-of-range time |
| DateKnown.InRangeIsAsked | js/src/jsdate.c:381-404 | a time from 1970 to 2038 is asked about as it is |
| DateKnown.WeekdaysFollow | js/src/jsdate.c:304-313 | 1 January 1970 is a Thursday, and each day is followed by the next weekday |
| DateKnown.LeapYears | js/src/jsdate.c:187-189 | every fourth year is a leap year, but of the full centuries only every fourth |
| DateKnown.KnownTimes | js/src/jsdate.c:318-339 | 29 February 2000, 12:34:56.789 and a second before 1970, as milliseconds |
| DateKnown.AdjustIsSum | js/src/jsdate.c:419 | local time is ahead by zone and daylight saving together, as long as that is less than a day |
| DateText.ParseString | js/src/jsdate.c:606-872 | the scanning loop computes what the recursive reading of the text says, for every text |
| DateText.RegionMatches | js/src/jsdate.c:519-546 | true exactly when the word is, but for case, the beginning of the keyword |
| DateText.FindKeyword | js/src/jsdate.c:735-781 | the last keyword of the table that the word abbreviates, or none |
| DateText.LastKeyword | js/src/jsdate.c:494-516 | the keyword found matches and no later one does |
| DateText.ScanDigits | js/src/jsdate.c:651-656 | a whole run of digits is read to its value, and the character after it is remembered |
| DateText.SkipComment | js/src/jsdate.c:639-650 | skips to the end of a nested comment or of the text |
| DateText.WordAt | js/src/jsdate.c:725-782 | a word is a keyword acted upon or a syntax error |
| DateText.NumberAt | js/src/jsdate.c:651-721 | a number is read and given its meaning by what came before and after |
| DateZones.MonthNames | js/src/jsdate.c:725-782 | the name of a month, in any case and cut short to three letters or more, means that month |
| DateZones.WeekdayNames | js/src/jsdate.c:725-782 | the name of a weekday, likewise, is passed over |
| DateZones.NamedZones | js/src/jsdate.c:494-516 | for any date: EST, EDT, CST, CDT, MST, MDT, PST and PDT are read as GMT-0500, -0400, -0600, -0500, -0700, -0600, -0800 and -0700 |
| DateZones.UniversalTime | js/src/jsdate.c:494-516 | for any date: GMT, UT and UTC mean the same |
| DateZones.ParseOffset | js/src/jsdate.c:666-707 | for any date: `GMT+h:mm` and `GMT-h:mm` are read as h hours and mm minutes east or west, but east as west if h is 0 |
| DateZones.SixtyMinutes | js/src/jsdate.c:703-719 | for any date: a `GMT` offset with sixty minutes or more is refused |
| DateKnown.YearAfterSlashes | js/src/jsdate.c:680-684 | a number after two slashes is the year if a blank, a comma, a slash or the end follows, and is refused otherwise |
| DateKnown.Separators | js/src/jsdate.c:634-638 | blanks, control characters, commas and hyphens before no digit mean nothing, wherever they stand |
| DateKnown.NestedComment | js/src/jsdate.c:639-650 | a comment ends at the parenthesis that matches its first one |
| DateKnown.FourthClockNumber | js/src/jsdate.c:685-691 | a clock with a fourth number is refused |
| DateKnown.SecondMonth | js/src/jsdate.c:754-773 | a second month by name is refused |
| DateKnown.SecondOffset | js/src/jsdate.c:675-679 | a second offset is refused |
| DateKnown.UnknownWord | js/src/jsdate.c:735-781 | a word that begins no keyword is refused |
| DateKnown.NumbersFillSlots | js/src/jsdate.c:666-721 | a number that is read is an offset or goes to one place that was empty: nothing read before is overwritten |
| DateKnown.GluedNumber | js/src/jsdate.c:701-702 | a number that is no offset, right before anything but a separator or a parenthesis, is refused |
| DateKnown.NumberBeforeSeparator | js/src/jsdate.c:680-702 | after a number a comma, a comment or a hyphen is read as a blank is, but for the year after two slashes |
| DatePrint.ScanReadsTokens | js/src/jsdate.c:630-784 | the scanner splits every text of separate tokens into just those tokens: the tokenizer inverts concatenation |
| DatePrint.PaddedIsRead | js/src/jsdate.c:651-656 | a zero-padded decimal reads back as its number |
| DatePrint.DayKeyword | js/src/jsdate.c:1567-1570 | every printed weekday is a keyword without effect |
| DatePrint.MonthKeyword | js/src/jsdate.c:1571-1574 | every printed month is the keyword of that month, whatever later keywords share letters with it |
| DatePrint.TextOfGMT | js/src/jsdate.c:1593-1600 | the GMT format is the concatenation of its tokens |
| DatePrint.TextOfFull | js/src/jsdate.c:1729-1740 | the full format is the concatenation of its tokens |
| DateKnown.PrintedEpoch | js/src/jsdate.c:1576-1607 | the epoch is printed as `Thu, 01 Jan 1970 00:00:00 GMT` |
| DateKnown.PrintedWest | js/src/jsdate.c:1659-1741 | eight hours to the west it is `Wed Dec 31 1969 16:00:00 GMT-0800 (PST)` |
| DateKnown.ZoneIsPrinted | js/src/jsdate.c:1693-1720 | a zone name is printed if and only if it is not empty, fits, does not begin with a closing parenthesis, and is made of letters, digits, blanks and parentheses |
| DateRoundTrip.ParseGMT | js/src/jsdate.c:1576-1607 | what parsing the GMT form of any fields gives: nothing for years below 70, nineteen centuries late below 100, and otherwise the time |
| DateRoundTrip.GMTRoundTrip | js/src/jsdate.c:1576-1607 | parsing toGMTString gives back the time rounded down to the second if and only if the year is at least 100; it is a syntax error if and only if the year is below 70 |
| DateRoundTrip.ParseFull | js/src/jsdate.c:1659-1741 | what parsing the full form of any fields and offset gives, whatever the zone name: what the name leaves of the state in which all else has been read |
| DateRoundTrip.ParseFullWithComments | js/src/jsdate.c:1693-1720 | a zone name made of comments leaves the printed fields and offset as read |
| DateRoundTrip.ZoneRoundTrip | js/src/jsdate.c:1676-1679 | a printed zone offset is read back right unless it is 1 to 23 minutes either way, which are read as hours |
| DateRoundTrip.FullRoundTrip | js/src/jsdate.c:1659-1741 | parsing the full form gives back the time rounded down to the second if and only if the local year is at least 100, the offset is zero or at least 24 minutes, and its fraction of a minute does not reach the next second |
| DateRoundTrip.FinishReadsBack | js/src/jsdate.c:785-866 | the final guess of which number is the year, on what a printed date leaves behind |
| DateForms.ParseSlashes | js/src/jsdate.c:787-866 | f/m/l is read as the comment there says, for any three numbers: month/day/year, or year/month/day from 70 on, or refused |
| DateKnown.SlashCases | js/src/jsdate.c:787-866 | the cases of that comment one by one: what f/m/l means for every f, m and l |
| DateForms.ParseNamed | js/src/jsdate.c:787-866 | `month f l`, `f month l` and `f l month` mean the same date: the greater number is the year, and exactly one must be 70 or more |
| DateKnown.NamedCases | js/src/jsdate.c:787-866 | which of the two numbers is the year, and when neither or both could be, for every two numbers |
| DateForms.ParseTwelveHours | js/src/jsdate.c:739-753 | with AM or PM, 12 counts as 0 or 12, other hours as themselves or 12 more, and hours above 12 are refused |
| DateKnown.ClockHours | js/src/jsdate.c:739-753 | every hour of the day, written with AM or PM, is read as that hour |
| DateRoundTrip.PlainZone | js/src/jsdate.c:1693-1720 | a zone name without parentheses prints as a comment, so the round trip's condition on it is met |
| HeapSearch.TraceFacts | js/src/jsapi.c:2096-2172 | listing marks each new thing once; only thingToFind may be listed again; startThing and thingToIgnore never are |
| HeapSearch.SearchDescends | js/src/jsapi.c:2284-2301 | printing a thing and listing its children keeps done, pending and visited in step |
| HeapSearch.FoundAll | js/src/jsapi.c:2240-2325 | closed under edges and reachable: what was visited is exactly what can be reached |
| HeapSearch.SearchEnds | js/src/jsapi.c:2240-2325 | when nothing is pending, the printed things are the reachable ones, each once |
| HeapSearch.FewerUndone | js/src/jsapi.c:2278-2319 | every round leaves fewer things undone, on cyclic heaps too |
| HeapDump.DumpNode | js/src/jsapi.c:2175-2238 | prints the chain outermost first, cut at ten parents, and succeeds if and only if every write does; the parent links are as they were if and only if it is not the write of the dots that fails |
| HeapWalk.NotifyAllFacts | js/src/jsapi.c:2096-2172 | tracing lists what is wanted and marks what is seen unless a request for memory is refused; it never fails otherwise |
| HeapWalk.MemoryIsUsed | js/src/jsapi.c:2096-2172 | tracing succeeds if and only if there is memory for a table entry per thing looked up and for a node per thing listed |
| HeapWalk.EndIsOne | js/src/jsapi.c:2240-2325 | the heap, the depth and the numbers of allocations and writes that succeed determine the whole walk |
| HeapWalk.EndingIsSound | js/src/jsapi.c:2240-2325 | every node is freed if writing never fails, the depth is limited to eleven, the walk succeeds or a write is left over in the end, whatever requests for memory are refused; without refusals the walk succeeds; in a heap that is a list a chain left reversed always makes it stop short |
| HeapWalk.ListStopsShort | js/src/jsapi.c:2194-2209 | a list of twelve things, and room for 89 writes: the walk ends at the depth assertion with eleven of twelve nodes left |
| HeapWalk.FanDangles | js/src/jsapi.c:2194-2209 | the same with a sibling for the twelfth thing: the walk follows a link to a freed node, with ten of thirteen nodes left |
| HeapDump.DumpingTracer.DumpCurrent | js/src/jsapi.c:2280-2281 | after the call the links are in order, or the current nodes of the innermost eleven levels point down |
| HeapDump.TurnedFate | js/src/jsapi.c:2305-2318 | with links left reversed, the walk goes wrong at the first of those levels where the current node has no sibling to come, at a null link if it is the innermost and else at a freed node, and leaves every node outside |
| HeapWalk.FateIsSound | js/src/jsapi.c:2305-2318 | a walk over reversed levels frees every node if and only if each of them has a sibling to come |
| HeapDump.HowManyNodes | js/src/jsapi.c:2305-2318 | the nodes held are as many as the rows of edges say |
| HeapDump.TurnChain | js/src/jsapi.c:2194-2209 | the way up reverses the links of at most eleven nodes; it fails just when the chain is cut and the dots cannot be written |
| HeapDump.PrintChain | js/src/jsapi.c:2211-2235 | the way down restores all the links, also after a failed write, and prints the whole chain if none fails |
| HeapDump.ChainIsRoute | js/src/jsapi.c:2162-2172 | the parents of a node are a real route of edges out to a root |
| HeapDump.AdvanceIsRest | js/src/jsapi.c:2305-2318 | moving across or up visits the pending nodes in order |
| HeapDump.DumpingTracer.DumpNotify | js/src/jsapi.c:2096-2172 | appends a node just when the thing is to be listed; any allocation may fail |
| HeapDump.DumpingTracer.Trace | js/src/jsapi.c:2291-2294 | after all edges of a thing: the new nodes, linked in order, are the edges to be listed |
| HeapDump.DumpingTracer.Visit | js/src/jsapi.c:2283-2302 | one node: printed if wanted, its children put on a level of their own if allowed |
| HeapDump.DumpingTracer.MoveOn | js/src/jsapi.c:2305-2318 | frees the node and each finished parent once, keeping the depth in step; when links are still reversed, it ends as their fate says |
| HeapDump.DumpingTracer.Round | js/src/jsapi.c:2278-2319 | one turn of the loop keeps all invariants, or the walk ends early as told from the reversed links; it brings the end nearer |
| HeapDepth.LimitedDepth | js/src/jsapi.c:2278-2301 | a successful dump for nothing in particular, with any limit of its depth: each thing shown once, all roots shown, and all that is one edge below anything shown above the limit |
| HeapWalk.WritesOfLine | js/src/jsapi.c:2175-2238 | a line takes one write for the thing, one for the dots if it is cut, one per piece and one for its end |
| HeapHunt.FindIsWanted | js/src/jsapi.c:2112-2139 | an edge to thingToFind is listed however often the thing was reached before |
| HeapHunt.HuntDescends | js/src/jsapi.c:2284-2303 | tracing a thing puts every edge from it to thingToFind among those to be printed; thingToFind itself is traced once |
| HeapHunt.PathIsFollowed | js/src/jsapi.c:2112-2139 | everything on a way from the roots is traced before the walk ends, also beyond thingToFind |
| HeapHunt.HuntEnds | js/src/jsapi.c:2112-2139 | all live things that refer to thingToFind have been shown |
| HeapDump.LineShows | js/src/jsapi.c:2214-2235 | a printed line names the thing, ends with the edge it was reached by, and follows a real route that avoids thingToIgnore |
| HeapDump.LineReads | js/src/jsapi.c:2194-2235 | for every route: read from its end, the line's pieces lead from the thing along edges of the heap to a root, or to the thing eleven edges up if the line is cut, which is so if and only if the route is longer |
| HeapDump.DumpHeap | js/src/jsapi.c:2240-2325 | terminates on every heap, and its answer, lines, number of nodes, ending and number of nodes left are those of the walk on values with that much memory and room for writing; no node is freed twice; all are freed, and the depth ends at 1, if and only if that walk ends soundly, so always if nothing was refused, if only memory was, or if the depth is at most eleven; it succeeds if nothing is refused; each line is at most as long as the depth and can be read back as a real route, or as one cut after eleven edges and marked so. When nothing is looked for, only what is below the things shown at the limit may be missing. Without depth limit, when it succeeds: with nothing to find the reachable things are printed once each; otherwise only thingToFind is printed, and every edge to it from the roots or a reachable thing is shown |
| HeapDump.DumpList | js/src/jsapi.c:2194-2209 | a dump of a list of twelve things whose 90th write, that of the dots, fails stops short at the depth assertion and leaves eleven of its twelve nodes |
| Traps.StepIsValid | js/src/jsdbgapi.c:79-249 | each lock section keeps at most one trap per bytecode, a JSOP_TRAP byte exactly where there is a trap, and the code under the traps, except that js_PatchOpcode changes its one opcode |
| Traps.RunIsSafe | js/src/jsdbgapi.c:79-249 | the same over every interleaving of debugger threads, and no clearing loop ever follows a link to a removed trap |
| Traps.ContinueIsValid | js/src/jsdbgapi.c:219-223 | after the lock was let go, either nothing was changed and the saved link is good, or the loop starts again |
| Traps.FinishIsValid | js/src/jsdbgapi.c:122-144 | a trap linked after the allocation has no twin: an unchanged counter means that none has come |
| Traps.DestroyKeepsView | js/src/jsdbgapi.c:175-185 | destroying a trap puts its opcode back |
| Traps.AddTrapKeepsView | js/src/jsdbgapi.c:138-144 | setting a trap saves the opcode it overwrites |
| Traps.ReplaceChangesView | js/src/jsdbgapi.c:93-105 | patching a trapped bytecode changes the saved opcode and nothing else |
| TrapAnswers.SetAnswers | js/src/jsdbgapi.c:117-124 | setting a trap where there is one gives it the new handler, and changes no other handler |
| TrapAnswers.FinishAnswers | js/src/jsdbgapi.c:130-148 | a new trap has the handler given, whether or not another thread has set one meanwhile; without memory nothing changes |
| TrapAnswers.ClearAnswers | js/src/jsdbgapi.c:187-203 | after clearing there is no trap at the bytecode, whose opcode is back, and every other trap keeps its handler |
| TrapAnswers.PatchAnswers | js/src/jsdbgapi.c:93-105 | patching changes no handler, and the byte only where there is no trap |
| TrapAnswers.ClearingStartsOver | js/src/jsdbgapi.c:205-249 | a clearing loop that starts, or that others have disturbed, clears a trap of the script if there is any in the whole list, and is done only if there is none |
| Traps.CounterComesRound | js/src/jsdbgapi.c:131-134 | linking the trap breaks the invariant if and only if a twin exists and the 32-bit counter reads as sampled |
| Traps.ClearingComesRound | js/src/jsdbgapi.c:215-249 | the clearing loop goes on from a link that is gone if and only if the link is stale and the 32-bit counter reads one more than sampled |
| Traps.TwinTrapsAfterAll | js/src/jsdbgapi.c:110-160 | from any code with two bytecodes a run of 2^32 mutations ends with two traps at one of them, the second with JSOP_TRAP as its opcode |
| Traps.LostLinkAfterAll | js/src/jsdbgapi.c:215-249 | a run of 2^32 mutations leads to a clearing loop that follows the link of a trap that is gone |
| TrapClear.ClearUndisturbed | js/src/jsdbgapi.c:205-249 | left alone, a clearing loop ends, having removed just the script's traps in list order, or all traps with the original bytes restored |
| TrapClear.ClearsTheRest | js/src/jsdbgapi.c:205-249 | from any place in the list on, the same |
| TrapClear.FollowsOn | js/src/jsdbgapi.c:215-223 | undisturbed, the saved link leads to the trap after the one destroyed |
| TrapClear.DebuggerRuntime.Find | js/src/jsdbgapi.c:79-91 | the list search finds the first trap at the bytecode |
| TrapClear.DebuggerRuntime.PatchOpcode | js/src/jsdbgapi.c:93-105 | patches the trap or the byte, as its step says |
| TrapClear.DebuggerRuntime.SetTrap | js/src/jsdbgapi.c:117-124 | first half: an existing trap gets the handler, or the counter is sampled |
| TrapClear.DebuggerRuntime.FinishSetTrap | js/src/jsdbgapi.c:130-148 | second half: the twin gets the handler, or the new trap is linked and the byte patched |
| TrapClear.DebuggerRuntime.DestroyTrap | js/src/jsdbgapi.c:175-185 | counts the mutation, unlinks and restores the byte |
| TrapClear.DebuggerRuntime.ClearTrap | js/src/jsdbgapi.c:187-203 | clears the trap and returns its handler, or does nothing |
| TrapClear.DebuggerRuntime.ClearSection | js/src/jsdbgapi.c:212-224 | one lock section of the clearing loops |
| Atomize.StepIsValid | js/src/jsatom.c:648-711 | every step keeps the table free of twins and every sampled generation honest |
| Atomize.NoTwins | js/src/jsatom.c:648-711 | over every interleaving, with atoms freed meanwhile: never two atoms for one string in one subspace |
| Atomize.FinishIsValid | js/src/jsatom.c:684-703 | an unchanged generation implies that the key is still absent, so a twin is seen exactly when there is one |
| Atomize.ReturnsTheAtom | js/src/jsatom.c:648-711 | a finished call returns the one atom of the table for its string and subspace |
| Atomize.SameAtomTwice | js/src/jsatom.c:648-711 | two calls for one string and subspace, by any threads, return the same atom unless it was swept in between |
| Atomize.FlagsAreSet | js/src/jsatom.c:686-706 | the requested flags reach the atom if and only if no twin turned up during the copy, or the twin has them: the raced path leaves before setting them |
| AtomAnswers.CallAnswers | js/src/jsatom.c:522-549 | a call under the lock adds its flags to the atom it finds and changes no other; a string not found is left to the second half, another value is added |
| AtomAnswers.FinishAnswers | js/src/jsatom.c:684-710 | the second half adds the string if and only if memory is there and no other thread has added it |
| AtomAnswers.SweepAnswers | js/src/jsatom.c:247-256 | a sweep takes away that one atom |
| AtomAnswers.PinnedStays | js/src/jsatom.c:648-711 | an atom once pinned or interned stays in the table, and stays so, over every run |
| Atomize.PinIsLost | js/src/jsatom.c:686-706 | for every string there is a run from the empty table after which a call that asks for a pinned atom returns one that is not pinned |
| Atomize.SubspacesDiffer | js/src/jsatom.c:642-660 | the hidden and the plain hash of a string are never equal |
| Atomize.GenerationComesRound | js/src/jsatom.c:686-697 | adding the atom breaks the invariant if and only if a twin exists and the 32-bit generation reads as sampled |
| Atomize.TwinsAfterAll | js/src/jsatom.c:686-697 | for every string there is a run of 2^32 changes from the empty table that ends with two atoms for it in one subspace |
| Atomize.JSAtomState.AtomizeString | js/src/jsatom.c:663-669 | first lock section: a hit gets the flags, a miss samples the generation |
| Atomize.JSAtomState.FinishAtomizeString | js/src/jsatom.c:684-710 | second lock section: looks again only if the generation changed, then adds |
| Atomize.JSAtomState.RawAdd | js/src/jsatom.c:228-245 | a new entry bumps the generation |
| Atomize.JSAtomState.FreeAtom | js/src/jsatom.c:247-256 | a freed entry bumps the generation |
| AtomList.JSAtomList.IndexAtom | js/src/jsatom.c:865-924 | a new atom gets the next index, an old one keeps its own, in list and in table, across the switch at ten; it fails if and only if the atom is new and there is no memory for its element, or for the table that the eleventh atom needs, and then nothing changes |
| AtomList.JSAtomList.SearchList | js/src/jsatom.h:123-142 | the list search finds the atom if and only if it is there; a hit moves its element to the front and keeps all others in order, a miss changes nothing |
| AtomList.JSAtomList.MoveToFront | js/src/jsatom.h:129-136 | relinking an element to the front keeps all others in order |
| AtomList.JSAtomList.MakeTable | js/src/jsatom.c:884-908 | all elements go from the list into the table, none lost |
| AtomList.JSAtomList.InitAtomMap | js/src/jsatom.c:960-1002 | the vector has every atom at its index; it fails, and changes nothing, if and only if there are 2^23 atoms or more, or atoms and no memory |
| AtomList.JSAtomList.FillFromList | js/src/jsatom.c:992-995 | each slot is filled exactly once, in whatever order the list is by then |
| AtomList.JSAtomList.FillFromTable | js/src/jsatom.c:945-953 | the same from the table, in any order of its entries |
| AtomList.IndicesStay | js/src/jsatom.c:865-924 | an index once given is never given to another atom |
| AtomList.VectorInverts | js/src/jsatom.c:960-1002 | whatever index an atom was given when seen, the final vector has it there; atoms appear once each, in order of first occurrence |

## Left out

- Pools aligned more loosely than pointers, whose headers need padding: the alignment is at least that of a pointer.
- ArenaRuns.RunIsSound: legal calls do not grow or free anything older than an open mark, free only what is live, and ask for sizes whose rounding does not wrap around.
- Arena statistics, fill patterns, JS_ARENA_DESTROY and the finishing of a whole pool.
- ArenaPool.JSArenaPool.FreeAllocation: the arenas are a sequence of records with addresses, so the pointer to a `next` field is the address of its struct.
- MergeSort.Sort: the element size and the one-word fast copy are not modelled; src and tmp are two arrays of elements, and the one-element swap space is part of tmp.
- ArraySort.Sort: a comparator that changes the array, elements inherited from prototypes, failing property accesses and the operation limit are not modelled.
- ArraySplice.Splice: the new length must fit 32 bits; getters, setters and the prototype chain are not modelled.
- ArrayObject.JSArray.SetLength: all properties are enumerable and deletable, where the code passes over the others; names that denote indices but are not stored under their tagged integer cannot occur, and no property name has a NUL.
- ArrayObject.JSArray.DeleteSparse: as for SetLength, the iterator visits all properties.
- ArrayIndex.BigIndexToId: making an atom does not fail.
- LocalRoots.EnterOpensScope: a stack of 2^30 words or more, which would fill a 32-bit address space, is excluded.
- LocalRootStack.JSLocalRootStack.EnterScope: likewise.
- LocalRootStack.JSContext.EnterLocalRootScope: likewise.
- Arena.InitIsValid: an arena size off the alignment is excluded.
- ArenaPool.GrowKeepsBytes: back-pointers are fields of the arena records; that their words in memory are clear of everything else is HeaderIsClear, HeadersAreApart and GrowKeepsHeaders.
- ArenaPool.HeaderLeadsHome: the back-pointer is read from the arena record rather than from the bytes.
- LocalRootStack.JSContext.PushLocalRoot: words are a datatype of tagged values rather than bits, but a mark goes through the 32-bit shift.
- ContextLife.RunIsSafe: the requests and collections that a last context waits for while it takes the runtime down are not steps of the model.
- DateMath.YearFromTimeIsRight: times are integers and the mean year is exact, without the rounding of doubles.
- DateText.ParseString: the accumulated numbers are unbounded integers, where the code's 32-bit sum overflows without a defined result; the character after the text is NUL.
- DateText.ScanDigits: likewise.
- DateText.NumberAt: likewise.
- DateForms.ParseSlashes: likewise, for numbers of 2^31 or more.
- DateForms.ParseNamed: likewise.
- DateForms.ParseTwelveHours: likewise.
- DateRoundTrip.FullRoundTrip: the zone name comes from the operating system and must be made of comments if it is printed; the printing buffer of 100 characters could cut only that text.
- DateMath.DSTQueryAgrees: the daylight-saving offset itself is the operating system's; nothing is claimed of local time across changes of it.
- HeapDump.DumpHeap: the descriptions of things and edges are names given with the heap; of a line whose writing fails nothing is kept; a walk that comes to a freed node is not followed further.
- Traps.RunIsSafe: fewer than 2^32 mutations pass while a thread is away; handlers, GC roots of traps and watchpoints are not modelled; reading a trap after the lock is released (JS_GetTrapOpcode, JS_HandleTrap) is not either.
- Atomize.NoTwins: fewer than 2^32 changes of the table pass while a thread is away; the hash table is a list of entries looked up by hash and key; chains, growth and numbers as keys are not modelled.
- AtomAnswers.PinnedStays: the unpinning of all atoms when the last context goes is not a step.
- AtomAnswers.CallAnswers: adding a value that is no string does not run out of memory.
- AtomList.JSAtomList.IndexAtom: the hash table of a long list is a map.
- The rest of the engine (interpreter, compiler, garbage collector, scopes, properties), the API wrappers, and the shell in `sjs/`.
