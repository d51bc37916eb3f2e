# Verified models of libhatchet's algorithms

A Dafny project that models the complete algorithms and state machines of
libhatchet and proves what they promise. `dafny verify dfyconfig.toml` checks
all of it.

| files | what they model |
|---|---|
| `Order` | strict weak orders, stable sorting as a reference, permutations, filtering: the vocabulary of the other modules |
| `Scanning`, `Settings` | searching a sequence for an element, as `memchr` does; constants of the configuration |
| `InsertionSort`, `HeapLevels`, `Heap`, `Introsort` | `hxsort` and its parts, with the number of comparisons |
| `RadixOrder`, `RadixBuckets`, `RadixSort`, `KeyRecoding` | the two radix sorts and the recoding of signed and float keys |
| `HeapVector`, `TaskQueue`, `TaskProtocol` | the task queue: its shared state, and the protocol of its threads over whole runs |
| `XorRing`, `XorList` | the XOR-linked list on a memory of 64-bit addresses |
| `Glob`, `TestFilter` | the pattern matcher and the in-place filter of the test framework |
| `LineReader` | the buffered reader of console scripts |
| `PowersOfTwo`, `Random` | the period of the random number generator |
| `SetAlgorithms`, `BoundSearch` | merging, set operations, duplicate removal and binary search |
| `SlabStack`, `SlabAllocator` | the scoped slab allocator |
| `HashChain` | the collision chains of the hash table |

Code that changes things in place is modelled by methods that do, on arrays,
fields and a memory of links, each proved against a function or a predicate of
the old state; what that function means is proved by lemmas. Many small lemmas
exist to let a method be verified with most definitions hidden from the solver.
Lemmas whose name ends in `Plain` say what a definition means in the terms of the
source alone: calls, bytes, numbers.

How to read the contracts:

- Comparisons are counted by a ghost counter that goes up beside every call of `less`.
- A move is a copy whose source must be overwritten before it is read again.
- The protocol of the task queue takes a locked region as one step. Its ledger
  knows every ticket ever issued, so that "executed exactly once" is a statement
  about the whole run.
- A node or block that has been deleted is no longer in the memory, so a method
  that read one would not verify.
- `hxsize_t`, `size_t` and `uintptr_t` are natural numbers where the source lets
  them grow with the data. Counters of the radix sorts are 32 bits wide, keys and
  links are bit vectors, and the generator works modulo 2^64.

Where the code and a promise part ways, the code is followed:

- The leak check at the end of a temporary stack's scope counts blocks without
  asking which. Freeing an older block inside the scope hides the leak of a newer
  one (`LeakHidden`, `LeakMissed`); `LeakCheckExact` says exactly when the check passes.
- `free` recognises a block by its address. A block of size 0 that starts at the
  end of its slab is not recognised (`ZeroSizeAtEnd`). `RoutingExact` says that it
  is the only one; its address may lead to another slab or to the operating
  system's heap, so `Free` excludes it.
- A line of exactly 2047 bytes is followed by an empty line, and a longer one is
  cut. `LinesAreTextLines` states the exact condition under which the reader
  agrees with splitting the file at newlines.
- `hxset_difference` is documented as the keys of the first range that are not in
  the second. A key that is in both stays as often as the first range has more of it
  (`DifferenceKeepsSurplus`); `DifferenceIsOfKeys` states the exact condition under
  which that makes no difference.
- `hxsort` casts the size to 32 bits before taking its logarithm, which is
  undefined for 0. Sizes that are a positive multiple of 2^32 are excluded; for all
  others the comparison bound holds.

## Model

| member | source | states |
|---|---|---|
| `InsertionSorting.InsertionSort` | include/hx/hxsort.hpp:33-50 | In place, for any `less` whatever: the range becomes its reference stable sort, the rest of the array is untouched, with at most n(n-1)/2 calls and at most n plus the number of inversions |
| `InsertionSorting.InversionsNone` | include/hx/hxradix_sort.hpp:115-116 | A range has no inversion if and only if it is sorted, so that sorted data take at most n calls and mostly sorted data few more |
| `InsertionSorting.InsertLast` | include/hx/hxsort.hpp:38-48 | One outer step: the element at `j` is shifted to where a stable insertion puts it, with at most one call per element before it, and one more than the elements it is less than |
| `InsertionSorting.SortedToCorrect` | include/hx/hxsort.hpp:26-32 | Under a strict weak order that result is sorted, a permutation that touches nothing outside the range, and holds every equivalence class of the range in the same order |
| `Order.StableSortUnique` | include/hx/hxsort.hpp:26-50 | Nothing else is: a sequence is the stable sort of another if and only if it is sorted and holds every equivalence class in the same order |
| `Order.SortedClassesUnique` | include/hx/hxsort.hpp:26-50 | Two sorted sequences with the same classes in the same order are equal |
| `Order.StrictWeakOrderPlain` | include/hx/hxsort.hpp:26-50 | The order the sorts need is the usual one: irreflexive, transitive, and transitive in being incomparable |
| `Order.SortedPlain` | include/hx/hxsort.hpp:26-50 | Sorted means that no call of `less` on a later and an earlier element is true |
| `Heaps.SiftDown` | include/hx/detail/hxsort_detail.hpp:25-49 | From a heap with a hole at `start`: a heap again, the range rearranged with `value` in the hole, at most two calls per level |
| `Heaps.MakeHeap` | include/hx/detail/hxsort_detail.hpp:51-61 | A max heap of the same elements in at most 2n calls |
| `HeapLevels.LevelSumLinear` | include/hx/detail/hxsort_detail.hpp:51-61 | The levels below all inner nodes of a heap of n add up to at most n, which makes the construction linear |
| `Heaps.RootIsMaximum` | include/hx/detail/hxsort_detail.hpp:63-75 | Parents not below their children means nothing is above the root |
| `Heaps.ExtractMaximum` | include/hx/detail/hxsort_detail.hpp:70-74 | One round: the maximum moves behind the shrunken heap and the sorted tail grows by it |
| `Heaps.HeapsortRange` | include/hx/detail/hxsort_detail.hpp:63-75 | Sorted, a permutation of the range, nothing outside it moved, at most 2n + 2n log2 n calls |
| `Heaps.Heapsort` | include/hx/hxsort.hpp:64-74 | The same behind the cutoff of 20, below which insertion sort bounds the calls: no later element less than an earlier one, a permutation, nothing outside the range moved |
| `HeapLevels.Log2Exact` | include/hx/detail/hxsort_detail.hpp:77-81 | The logarithm of the bounds: n lies between two to its power and twice that |
| `Introsort.SamplesInside` | include/hx/detail/hxsort_detail.hpp:90-97 | For every length above the cutoff the five sample positions are distinct and strictly inside the range |
| `Introsort.SelectPivots` | include/hx/detail/hxsort_detail.hpp:90-110 | The pointer-swapping network orders the middle and its four sevenths by their elements without moving one, in nine calls; the positions returned are those five samples |
| `Introsort.PartitionLoop` | include/hx/detail/hxsort_detail.hpp:114-152 | Three-way partition of all but the two holes, and the elements with the pivots are a permutation |
| `Introsort.Partition` | include/hx/detail/hxsort_detail.hpp:82-166 | Both holes are refilled; below, between and above the two pivots lies what belongs there, in at most 2n + 5 calls |
| `Introsort.SplitSorted` | include/hx/detail/hxsort_detail.hpp:168-176 | Sorted parts make a sorted range, the middle one unsorted but between equivalent pivots |
| `Introsort.PartitionSort` | include/hx/detail/hxsort_detail.hpp:77-177 | Sorted, a permutation, within the bound, with the recursive calls at one depth less |
| `Introsort.IntroSort` | include/hx/detail/hxsort_detail.hpp:179-199 | Sorted, a permutation of the range, nothing outside it moved, at most n(2 depth + 2 log2 n + 10) calls, on every input |
| `Introsort.Sort` | include/hx/hxsort.hpp:89-99 | `hxsort` under every strict weak order and for every size it is defined for: terminates, sorted, a permutation, at most n(6 log2 n + 10) and so 10 n (1 + log2 n) calls of `less` |
| `Introsort.SortBound` | include/hx/detail/hxsort_detail.hpp:77-81 | The depth limit of twice the logarithm keeps the bound of every call of the sort within O(n log n) |
| `Introsort.TruncatedLog` | include/hx/hxsort.hpp:97-98 | Casting the size to 32 bits can only lower the depth limit |
| `HeapVectors.PushHeap` | include/hx/detail/hxvector.inl:588-617 | A heap with one more element, which is the argument |
| `HeapVectors.PopHeap` | include/hx/detail/hxvector.inl:560-573 | A heap of all but the former first element |
| `HeapVectors.FrontIsMaximum` | include/hx/detail/hxvector.inl:560-573 | The first element of the heap is one nothing else is above |
| `RadixBuckets.CountedStep` | src/hxradix_sort.cpp:42-48 | Counting one more key keeps the histogram exact and no counter overflows below 2^32 - 1 elements |
| `RadixSort.Histograms8` | src/hxradix_sort.cpp:34-65 | The four histograms built up front hold the bucket starts of their own digits, and a skip flag is set exactly when the digit is constant |
| `RadixSort.Histograms11` | src/hxradix_sort.cpp:130-160 | The same for 11, 11 and 10 bits, in the two loops over 1024 and 2048 buckets |
| `RadixBuckets.StartPermutes` | src/hxradix_sort.cpp:36-65 | Permuting the records moves no bucket, so a histogram stays valid through every other pass |
| `RadixBuckets.LaidIsStableSort` | src/hxradix_sort.cpp:67-76 | All buckets laid out one after the other are the stable sort by the digit |
| `RadixBuckets.ScatteredStep` | src/hxradix_sort.cpp:71-74 | One record goes to a slot inside the buffer that no earlier record has, and its bucket keeps the order of arrival |
| `RadixSort.Scatter` | src/hxradix_sort.cpp:71-74 | A pass fills the whole destination with the stable sort by its digit |
| `RadixSort.RunPass` | src/hxradix_sort.cpp:69-76 | The result is sorted by one digit more, whether the pass runs or is skipped; source and destination of a pass are different arrays |
| `RadixOrder.IndexMonotone` | src/hxradix_sort.cpp:44-47 | Every digit is inside its histogram and is ordered as the bits are |
| `RadixOrder.StablePassesCompose` | src/hxradix_sort.cpp:67-100 | A stable sort by the low part and then by the high one is the stable sort by both |
| `RadixOrder.PassSorts` | src/hxradix_sort.cpp:67-100 | Each of the seven digits extends the bits sorted so far to the next mask |
| `RadixOrder.PassesEnd` | src/hxradix_sort.cpp:67-106 | After the last pass the mask is the whole key |
| `RadixSort.RadixSort8` | src/hxradix_sort.cpp:14-106 | Any array below 2^32 - 1 elements becomes its stable sort by key, in the caller's buffer; the trailing copy runs exactly when the number of passes was odd |
| `RadixSort.RadixSort11` | src/hxradix_sort.cpp:108-196 | The same in at most three passes over three buffers under all eight skip combinations; the trailing copy runs exactly after a single pass |
| `RadixSort.BothSortsAgree` | src/hxradix_sort.cpp:14-196 | On equal arrays the two sorts leave equal arrays, the insertion sort fallback included |
| `RadixSort.SortedByKeyPlain` | src/hxradix_sort.cpp:14-196 | What they leave, told by the numbers that the keys are: they never decrease, the records are the same, and those of each key are as they came |
| `KeyRecoding.SignedKeyMonotone` | include/hx/hxradix_sort.hpp:58-61 | The recoding of signed keys is strictly monotone, both ways |
| `KeyRecoding.SignExtend8Value` | include/hx/hxradix_sort.hpp:54 | Widening an 8-bit key keeps its value |
| `KeyRecoding.SignExtend16Value` | include/hx/hxradix_sort.hpp:56 | Widening a 16-bit key keeps its value |
| `KeyRecoding.SignedValuePlain` | include/hx/hxradix_sort.hpp:58-61 | The signed number of a word is the one in the signed range that is the word modulo 2^32 |
| `KeyRecoding.NarrowValuePlain` | include/hx/hxradix_sort.hpp:54-56 | The same for 8 and 16 bits |
| `KeyRecoding.FloatKeyMonotone` | include/hx/hxradix_sort.hpp:65-71 | Keys of floats that are not NaN are ordered as their values, with -0 just below +0 |
| `KeyRecoding.KnownFloats` | include/hx/hxradix_sort.hpp:65-71 | The value of a float, at 1, -2, the least and the greatest positive float, an infinity and two NaNs |
| `KeyRecoding.FloatKeyTotalOrder` | include/hx/hxradix_sort.hpp:65-71 | On all bit patterns the keys are ordered by totalOrder, section 5.10 of IEEE 754-2019 |
| `KeyRecoding.SignedKeysSorted` | include/hx/hxradix_sort.hpp:58-61 | An array sorted by recoded key is sorted by the signed keys |
| `KeyRecoding.FloatKeysSorted` | include/hx/hxradix_sort.hpp:65-71 | An array sorted by recoded key is sorted by the floats |
| `TaskQueues.TaskQueue.constructor` | src/hxtask_queue.cpp:11-31 | An empty, running queue with nothing executing |
| `TaskQueues.PopTop` | src/hxtask_queue.cpp:161-163 | The record popped has the highest priority of all queued and leaves exactly the others |
| `TaskQueues.TaskQueue.Locked` | src/hxtask_queue.cpp:138-194 | One pass through the locked region changes queue, count and run level, and decides run, sleep or leave, as `LockedRegion` says, for every mode and every way in; a task that is run has the highest priority of all queued |
| `TaskProtocol.HighestFirst` | src/hxtask_queue.cpp:161-163 | In every reachable state, a task that is started has the highest priority of all that are queued, and leaves exactly the others |
| `TaskProtocol.FreshIsInitial` | src/hxtask_queue.cpp:11-31 | The runs start from a fresh queue with any pool of threads and any clients |
| `TaskProtocol.EventEffects` | src/hxtask_queue.cpp:54-194 | Every event of the protocol changes the shared state as the method of the queue does |
| `TaskProtocol.EnqueuePossible` | src/hxtask_queue.cpp:86-106 | Enqueueing is possible whenever the queue runs, whether or not a thread sleeps |
| `TaskProtocol.EditsPossible` | include/hx/detail/hxtask_queue.inl:34-58 | In every reachable state, so is every edit that a callable of `erase_if` or `for_each` makes, and every cancellation |
| `TaskProtocol.CallsPossible` | src/hxtask_queue.cpp:33-60 | So are clearing, waiting before the destructor is entered, the destructor when no client waits, and a wakeup without a cause |
| `TaskProtocol.RunsStep` | src/hxtask_queue.cpp:135-203 | Whatever is possible in a state that a run reaches makes a longer run |
| `TaskQueues.TaskQueue.WaitCompletion` | src/hxtask_queue.cpp:177-192 | The wait for completion ends only with an empty queue and nothing executing; a stopping thread then stops the queue and wakes everyone |
| `TaskQueues.TaskQueue.ReportFinished` | src/hxtask_queue.cpp:142-149 | A finished task is subtracted and completion is broadcast exactly when that makes the queue complete |
| `TaskQueues.TaskQueue.Enqueue` | src/hxtask_queue.cpp:86-106 | The record joins the multiset of queued ones and the heap stays one |
| `TaskQueues.TaskQueue.Cancel` | src/hxtask_queue.cpp:62-84 | Removes one record of the task if and only if there is one, restores the heap, and broadcasts exactly when the queue becomes empty |
| `TaskQueues.TaskQueue.Clear` | src/hxtask_queue.cpp:54-60 | Nothing stays queued and completion is broadcast |
| `TaskQueues.TaskQueue.EraseIf` | include/hx/detail/hxtask_queue.inl:34-45 | For a callable that may edit every record it sees and remember the ones before: it visits the vector from the last to the first, the queue holds exactly what the records it does not erase have become, the heap is restored for their new priorities, and completion is broadcast exactly when the last one goes |
| `TaskQueues.TaskQueue.ForEach` | include/hx/detail/hxtask_queue.inl:53-58 | For such a callable: the queue holds exactly what every record, visited from the first to the last, has become, with the heap restored for the new priorities |
| `TaskQueues.KeepingCounts` | include/hx/detail/hxtask_queue.inl:53-58 | If the callable looks at the record alone, a record is queued as often as an old one becomes it |
| `TaskQueues.EditedCounts` | include/hx/detail/hxtask_queue.inl:34-45 | The same for erasing: as often as an old one is kept and becomes it |
| `TaskQueues.EditedPermutes` | include/hx/detail/hxtask_queue.inl:34-58 | If the callable looks at the record alone, what is queued afterwards does not depend on the order of the visits |
| `TaskQueues.EditedUnchanged` | include/hx/detail/hxtask_queue.inl:34-45 | If it edits nothing either, exactly the records it matches are erased |
| `TaskProtocol.EditedIsEdit` | include/hx/detail/hxtask_queue.inl:34-58 | Both, with any callable that keeps the tickets, are steps of the protocol: every ticket left is one that was queued, in one record |
| `TaskProtocol.CancelIsEdit` | src/hxtask_queue.cpp:62-84 | So is a cancellation |
| `TaskProtocol.StepKeepsInv` | src/hxtask_queue.cpp:33-203 | Every step of every thread and client keeps the invariant: exact execution count, work conservation, justified waiters, safe stop, and the ledger of tickets |
| `TaskProtocol.ReachableInv` | src/hxtask_queue.cpp:135-203 | The invariant holds in every state that any run of a fresh queue reaches |
| `TaskProtocol.LeaveMeansAllDone` | src/hxtask_queue.cpp:166-192 | When a client gets out of the loop of `wait_for_all` or of the destructor, by whatever event, nothing is queued or executing: every ticket ever issued was started once and has finished, or was removed and never started |
| `TaskProtocol.FatesAreFinal` | src/hxtask_queue.cpp:135-203 | An executed or removed ticket stays so, and a started one can only finish |
| `TaskProtocol.NoLostWakeup` | src/hxtask_queue.cpp:151-158 | While anything is queued some pool thread is in the loop and not blocked |
| `TaskProtocol.NoDeadlock` | src/hxtask_queue.cpp:33-45 | While a client is in the loop some thread can take a step of its own |
| `TaskProtocol.CanMovePlain` | src/hxtask_queue.cpp:135-203 | That is, some thread can pass the locked region or return from a task |
| `TaskProtocol.InternalStepDrops` | src/hxtask_queue.cpp:135-203 | Every locked pass and every return of a task uses up a bounded measure |
| `TaskProtocol.ExternalStepCosts` | src/hxtask_queue.cpp:47-133 | Every event from outside - enqueue, edit, clear, call, spurious wakeup - raises the measure by at most a cost that depends on the number of threads |
| `TaskProtocol.RunCosts` | src/hxtask_queue.cpp:47-203 | In every run the steps of the threads themselves are paid for by the measure and those costs |
| `TaskProtocol.QuietMeansDone` | src/hxtask_queue.cpp:33-45 | A reachable state in which no thread can step has an empty queue, nothing executing and no client in the loop; if the destructor has been entered the queue is stopped and every pool thread has left, so that the joins return |
| `TaskProtocol.WaitsEnd` | src/hxtask_queue.cpp:33-45 | Every wait ends, and the destructor, also while running tasks enqueue: in every run of n threads the passes and returns are at most a measure of the first state plus 3n + 4 for every other event, under every schedule, and where they stop everything is done as `QuietMeansDone` says |
| `TaskProtocol.StoppedForGood` | src/hxtask_queue.cpp:36-44 | Once stopped the queue is empty and stays empty, and every pool thread still in the loop can lock and leaves when it does |
| `TaskProtocol.RunningWhileWorking` | src/hxtask_queue.cpp:177-181 | The assertions on the run level hold: a waiting client and an executing task only ever see a running queue |
| `XorRing.UnlinkRing` | src/hxlist.cpp:21-32 | The two updates of a removal turn the ring into the ring without the node, however its neighbours coincide |
| `XorRing.LinkRing` | src/hxlist.cpp:34-57 | The three updates of an insertion turn the ring into the ring with the node |
| `XorRing.JoinRing` | src/hxlist.cpp:121-142 | The four updates of a splice turn two rings into one, empty target and one-node source included |
| `XorRing.ReverseRing` | src/hxlist.cpp:115-119 | Read backwards from the sentinel the same memory is a ring again |
| `XorLists.List.constructor` | src/hxlist.cpp:13-14 | An empty list, whose sentinel is a ring of one |
| `XorLists.List.Front` | src/hxlist.cpp:16-19 | The first node, or the sentinel |
| `XorLists.List.Extract` | src/hxlist.cpp:21-32 | The sequence without element `i`; ring, tail and size hold again, and no link outside the list has changed |
| `XorLists.List.InsertAfter` | src/hxlist.cpp:34-46 | The sequence with the node after the position, which is the front after `end()` |
| `XorLists.List.InsertBefore` | src/hxlist.cpp:48-57 | The sequence with the node before the position |
| `XorLists.List.PopBack` | src/hxlist.cpp:59-69 | Returns and removes the last node |
| `XorLists.List.PopFront` | src/hxlist.cpp:71-84 | Returns and removes the first node |
| `XorLists.List.PushBack` | src/hxlist.cpp:86-94 | Appends the node |
| `XorLists.List.PushFront` | src/hxlist.cpp:96-107 | Prepends the node |
| `XorLists.List.ReleaseAll` | src/hxlist.cpp:109-113 | An empty list; of the memory only the sentinel's link is written |
| `XorLists.List.Reverse` | src/hxlist.cpp:115-119 | The reversed sequence, with the memory outside the frame of the method |
| `XorLists.List.Splice` | src/hxlist.cpp:121-142 | All nodes of the other list, in order, before the position, and the other list empty |
| `XorLists.List.Next` | include/hx/detail/hxlist.inl:33-41 | From any position to the next, and from `end()` round to the front |
| `XorLists.List.Previous` | include/hx/detail/hxlist.inl:53-61 | From any position to the one before, and from the front round to `end()` |
| `XorLists.List.ForEach` | include/hx/detail/hxlist.inl:281-297 | Visits exactly the nodes, in order, and stops at the sentinel |
| `XorLists.List.ForEachBackward` | include/hx/hxlist.hpp:93-95 | From `--end()` to `begin()`: exactly the nodes in reverse |
| `XorLists.List.Clear` | include/hx/detail/hxlist.inl:200-219 | Frees every node once, in order, and reads none after it is freed |
| `XorLists.List.RemoveIf` | include/hx/detail/hxlist.inl:393-417 | Leaves the nodes that do not match, in order, frees exactly the others, in order, and counts them |
| `XorLists.OtherListKept` | src/hxlist.cpp:21-142 | A list whose nodes are apart from those of an operation stays the list it was |
| `Globs.StarMatchesAnyRun` | src/hxtest.cpp:154-156 | In the definition of matching, a star matches when the rest of the pattern matches some suffix |
| `Globs.SecondStar` | src/hxtest.cpp:161-165 | Once the literal between two stars has matched, no later place for it can help, which is why one star is enough to remember |
| `Globs.PatternMatch` | src/hxtest.cpp:157-182 | The greedy matcher terminates and returns true if and only if pattern and target match by definition |
| `Globs.SplitJoins` | src/hxtest.cpp:184-187 | Splitting a list at its separators loses nothing and leaves none |
| `Globs.SplitUnique` | src/hxtest.cpp:184-187 | There is no other way to write a list as pieces without separators |
| `Globs.PatternListValid` | src/hxtest.cpp:188-204 | True if and only if the list and all of its pieces are non-empty |
| `Globs.PatternListMatch` | src/hxtest.cpp:208-222 | True if and only if some piece matches the target |
| `TestFilters.ParseFilter` | src/hxtest.cpp:225-238 | Splits at the first dash, and is valid if and only if both lists are well formed |
| `TestFilters.MatchTest` | src/hxtest.cpp:240-250 | Decides whether the filter selects a test |
| `TestFilters.SelectsWithNegative` | src/hxtest.cpp:224-250 | A filter `p-n` selects a test if and only if `suite.name` matches no piece of n and, unless p is empty, some piece of p; it is well formed if and only if no piece is empty |
| `TestFilters.SelectsWithoutNegative` | src/hxtest.cpp:224-250 | A filter without a dash selects a test if and only if it is empty or some piece matches `suite.name` |
| `TestFilters.NameSelects` | src/hxtest.cpp:224-259 | The name of a test, written out as a filter, selects that test and no other |
| `TestFilters.FilterTests` | src/hxtest.cpp:224-259 | The prefix holds each selected test as often as the range did and no other, is empty if and only if a list is malformed or nothing is selected, and nothing outside the range is touched |
| `LineReaders.File.Read` | src/hxfile_c.cpp:155-175 | More than the buffer holds is refused; otherwise a read is short exactly at the end of the file; either sets the failure flag for good |
| `LineReaders.ExecBuffered` | src/hxconsole.cpp:247-260 | Executes the lines that end in the buffer, in order, up to the first that fails |
| `LineReaders.ExecRest` | src/hxconsole.cpp:262-275 | The rest of the buffer is the last line of the file, a full buffer, or the start of a line to carry over |
| `LineReaders.ExecFile` | src/hxconsole.cpp:234-278 | For every file content and every console, wherever the reads end: a prefix of the lines is executed, each whole or up to its first NUL, in order; at most the last fails, and all are executed if none does; a file that has failed already executes nothing |
| `LineReaders.RunStops` | src/hxconsole.cpp:241-259 | Such a run executes a prefix of the lines of which at most the last fails, and all of them if none does |
| `LineReaders.LinesConserve` | src/hxconsole.cpp:245-274 | Only newlines are lost, no line holds one, and every line fits the buffer |
| `LineReaders.LinesAreTextLines` | src/hxconsole.cpp:263-274 | The lines are those of splitting at newlines if and only if every 2047 bytes with a byte after them hold a newline |
| `LineReaders.TextLinesJoin` | src/hxconsole.cpp:241-259 | Splitting at newlines, for which the lines with their newlines are the file again |
| `Random.JumpShape` | include/hx/hxrandom.hpp:104-107 | 2^k steps multiply by 1 modulo 2^(k+2) and add an odd multiple of 2^k |
| `Random.JumpAdds` | include/hx/hxrandom.hpp:104-107 | 2^k draws add 2^k modulo 2^(k+1) |
| `Random.LowBitsPeriod` | include/hx/hxrandom.hpp:104-114 | The low k bits come back after n draws if and only if 2^k divides n |
| `Random.PeriodIsExact` | include/hx/hxrandom.hpp:22-24 | Two states of one run are equal if and only if the draws between them are a multiple of 2^64 |
| `Random.EveryStateReached` | include/hx/hxrandom.hpp:22-24 | From every seed every state is reached, by exactly one number of draws below 2^64 |
| `Random.OutputDropsLow` | include/hx/hxrandom.hpp:109-114 | The low 13 bits of the state do not influence the output |
| `Random.OutputDropsControl` | include/hx/hxrandom.hpp:109-114 | The four bits that choose the place are not part of what is returned |
| `Random.Generator.U32` | include/hx/hxrandom.hpp:104-115 | One draw: the state is the seed's after one draw more, by the constants of the source, and the result its output |
| `Random.FirstDraw` | include/hx/hxrandom.hpp:104-115 | The first state and the first output of the default stream |
| `Random.HalvesParts` | include/hx/hxrandom.hpp:117-122 | Both draws come back from the two halves |
| `Random.Generator.U64` | include/hx/hxrandom.hpp:117-122 | Two draws make the two halves, in either order of evaluation: the low and the high 32 bits are the draws |
| `Random.Generator.Range` | include/hx/hxrandom.hpp:67-72 | A number in [base, base + size) |
| `SetAlgorithms.Merge` | include/hx/hxset_algorithms.hpp:33-62 | Sorted, and every class is that of the first range followed by that of the second |
| `SetAlgorithms.MergeIsStableSort` | include/hx/hxset_algorithms.hpp:24-32 | Which holds of exactly one output, the stable sort of one range after the other |
| `SetAlgorithms.SetUnion` | include/hx/hxset_algorithms.hpp:232-262 | Sorted, and every class is that of the first range followed by what the second has beyond it |
| `SetAlgorithms.SetIntersection` | include/hx/hxset_algorithms.hpp:183-206 | Sorted, and every class is the first min(m, n) members in the first range |
| `SetAlgorithms.SetDifference` | include/hx/hxset_algorithms.hpp:130-157 | Sorted, and every class is the members of the first range after the first n |
| `SetAlgorithms.Multiplicities` | include/hx/hxset_algorithms.hpp:120-235 | So the multiplicities are m + n, max(m, n), min(m, n) and max(m - n, 0) |
| `SetAlgorithms.CombinedPlain` | include/hx/hxset_algorithms.hpp:120-262 | And of every class it is known which members are in the output, from which range and in which order, and no later element is less than an earlier one |
| `SetAlgorithms.CombinedUnique` | include/hx/hxset_algorithms.hpp:120-235 | The contract determines the output element for element |
| `SetAlgorithms.DifferenceIsOfKeys` | include/hx/hxset_algorithms.hpp:120-157 | The difference is the documented one, of the keys that are not in the second range, if and only if no key of the second range is in the first more often |
| `SetAlgorithms.DifferenceKeepsSurplus` | include/hx/hxset_algorithms.hpp:120-157 | It is not for [1, 1] and [1]: a 1 stays |
| `SetAlgorithms.UniqueInPlace` | include/hx/hxset_algorithms.hpp:284-303 | For any `equal`: the prefix holds each element that differs from the last one kept, the rest of the array is untouched |
| `SetAlgorithms.UniqueLast` | include/hx/hxset_algorithms.hpp:284-303 | Element by element: it is kept if it is the first or differs from the last one kept |
| `SetAlgorithms.UniqueNeighbors` | include/hx/hxset_algorithms.hpp:278-283 | So the first element is kept and no two neighbours are equal |
| `SetAlgorithms.UniqueKeepsFirsts` | include/hx/hxset_algorithms.hpp:278-283 | Of a sorted range the first of every class is kept and nothing else, in strictly increasing order |
| `BoundSearch.Step` | include/hx/detail/hxrange_detail.hpp:18-52 | One call tells whether the element is before the value and, three-way, whether it is equivalent |
| `BoundSearch.LowerBound` | include/hx/detail/hxrange_detail.hpp:76-97 | The partition point, in at most floor(log2 n) + 1 calls |
| `BoundSearch.SortedIsSearchable` | include/hx/detail/hxrange_detail.hpp:76-126 | A range sorted by key under a strict weak order can be searched for a value of any type that has a key |
| `BoundSearch.LowerBoundPair` | include/hx/detail/hxrange_detail.hpp:99-126 | For elements and values of any two types: the partition point and whether the value is present; three-way without comparing again, in at most floor(log2 n) + 1 calls |
| `BoundSearch.BoundsPlain` | include/hx/detail/hxrange_detail.hpp:18-52 | Both bounds told by the callables alone: up to the lower bound `less(element, value)` or a negative `compare`, from it on not; from the upper bound on `less(value, element)`, before it not |
| `BoundSearch.PresentPlain` | include/hx/detail/hxrange_detail.hpp:99-133 | The flag as well: some element for which neither call is true, or for which `compare` is 0 |
| `BoundSearch.BinarySearch` | include/hx/detail/hxrange_detail.hpp:128-133 | True if and only if an equivalent element is present |
| `BoundSearch.UpperBound` | include/hx/detail/hxrange_detail.hpp:135-155 | The end of the elements not after the value, in at most floor(log2 n) + 1 calls |
| `BoundSearch.LowerBoundCounts` | include/hx/detail/hxrange_detail.hpp:76-97 | The lower bound is the number of elements before the value |
| `BoundSearch.ModesAgree` | include/hx/detail/hxrange_detail.hpp:18-52 | Callables of one order give one position and one flag, whatever their mode |
| `BoundSearch.EqualRange` | include/hx/detail/hxrange_detail.hpp:76-155 | Between lower and upper bound lies exactly the class of the value |
| `SlabStacks.MaskAligns` | src/hxslab_allocator.cpp:213-214 | For a power of two the mask arithmetic is the next multiple of the alignment |
| `SlabStacks.NoRoom` | src/hxslab_allocator.cpp:213-219 | If the next multiple leaves no room for the block, no aligned address does |
| `SlabStacks.TempStack.Allocate` | src/hxslab_allocator.cpp:212-224 | The next aligned block, apart from all live ones and inside the slab, or null if and only if it does not fit |
| `SlabStacks.TempStack.LiveContained` | src/hxslab_allocator.cpp:226-229 | A live block is recognised by its address if and only if it does not start at the very end, as only one of size 0 can |
| `SlabStacks.TempStack.Deallocate` | src/hxslab_allocator.cpp:231-239 | Exactly this block is no longer live |
| `SlabStacks.TempStack.BeginScope` | src/hxslab_allocator.cpp:265-273 | Remembers count and fill; every later block is beyond the mark |
| `SlabStacks.TempStack.EndScope` | src/hxslab_allocator.cpp:275-297 | What was live when the scope was opened and has not been freed since stays live; every newer block is given back, however many there are, and counted as lost |
| `SlabStacks.TempStack.GetHighWater` | src/hxslab_allocator.cpp:299-302 | The lazily updated mark is the highest the stack has ever been |
| `SlabStacks.TempStack.LeakCheckExact` | src/hxslab_allocator.cpp:283-285 | The leak check passes if and only if no more newer blocks are live or lost than older ones were freed |
| `SlabStacks.LeakHidden` | src/hxslab_allocator.cpp:283-285 | A run in which a scope is open, a block newer than it is live, and the leak check would pass |
| `SlabStacks.LeakMissed` | src/hxslab_allocator.cpp:275-297 | Closing that scope passes the check, gives the block back and counts it as lost |
| `SlabStacks.ZeroSizeAtEnd` | src/hxslab_allocator.cpp:215-229 | A run in which a live block of size 0 is not recognised as one of the slab |
| `SlabAllocators.SlabAllocator.Allocate` | src/hxslab_allocator.cpp:387-441 | The allocator asked for, or that of the innermost open scope, or the heap if none is open, provides the block if it is a slab with room; a slab without room leaves it to the heap and counts one overflow; the heap, and the permanent allocator without a budget, count none |
| `SlabAllocators.SlabAllocator.IssuedKept` | src/hxslab_allocator.cpp:387-501 | What other allocators have issued stays issued |
| `SlabAllocators.SlabAllocator.AllApart` | src/hxslab_allocator.cpp:387-441 | Live blocks of all allocators together are aligned, inside their slabs and pairwise apart |
| `SlabAllocators.SlabAllocator.Free` | src/hxslab_allocator.cpp:443-469 | The address alone leads to the allocator that issued the block, and only that one changes |
| `SlabAllocators.SlabAllocator.Route` | src/hxslab_allocator.cpp:451-468 | Any address leads to the first slab that contains it, or to the heap if none does |
| `SlabAllocators.SlabAllocator.RoutingExact` | src/hxslab_allocator.cpp:443-468 | The address of a live block leads back to its allocator if and only if the block does not start at the end of its slab, as only one of size 0 can |
| `SlabAllocators.SlabAllocator.BeginScope` | src/hxslab_allocator.cpp:471-488 | The new allocator is current and the old one remembered; no block changes |
| `SlabAllocators.SlabAllocator.EndScope` | src/hxslab_allocator.cpp:490-501 | Of the scope's stack, what was live when it was opened and has not been freed stays live and the newer blocks are given back; every other allocator keeps its blocks, and the previous allocator is current again |
| `HashChains.CountMulti` | src/hxhash_table.cpp:13-21 | The number of nodes of the chain that match |
| `HashChains.Length` | src/hxhash_table.cpp:95-101 | The number of nodes of the chain |
| `HashChains.EraseAt` | src/hxhash_table.cpp:23-34 | The chain without the node, first or not |
| `HashChains.EraseMulti` | src/hxhash_table.cpp:36-75 | The chain keeps exactly the nodes that do not match, in order; the others are deleted once each and not read again, and no other memory changes |
| `HashChains.ErasePrefix` | src/hxhash_table.cpp:43-54 | The loop over the matching prefix, while the slot still points to deleted nodes |
| `HashChains.EraseFollowing` | src/hxhash_table.cpp:55-73 | The loop behind a node that is kept |
| `HashChains.Extract` | src/hxhash_table.cpp:77-93 | Returns and unlinks the first match, or null with the chain as it was |
| `HashChains.Replace` | src/hxhash_table.cpp:103-122 | The new node takes the place of the first match, which is returned, or goes first |
| `HashChains.TableClear` | src/hxhash_table.cpp:124-138 | Every node of every chain is deleted once, slot by slot, and every slot is null |

## Left out

- Containers other than the ones above (`hxdeque`, `hxbitset`, flat maps and sets, slot maps, handle tables, `hxvector` beyond its heap operations): they would add easier members.
- `hxtask_dag_node`, which schedules tasks on top of the queue.
- The task queue without threads (`wait_for_all` with a pool of size 0), whose loop ends only if its tasks stop enqueueing.
- Weak-memory effects, thread creation and joining, and failures of the thread library: a locked region is one atomic step.
- Object lifetimes: moved-from states, destructors and `restrict`; elements are values.
- `hxminmax`, `hxmin`, `hxclamp`, `find_if` and similar loops, key hashing and getters: easy members.
- Console commands and argument parsing: executing a line is an opaque call that may depend on all lines executed before it.
- Files beyond a byte sequence whose reads are short exactly at its end; bytes that an input error makes unreadable count as not in the file.
- The operating system's heap beyond handing out aligned blocks apart from everything live; the debug header in front of each block and the count of heap bytes are not modelled.
- Threads of the slab allocator: scopes are opened and closed by one thread, properly nested.
- The floating-point draws of the generator (`f01`, `d01` and the float and double ranges) and `read`.
- Wrap-around of addresses in the slab allocator, which the source calls undefined.
- RadixSort.RadixSort8: the one allocation of the source that holds buffer and histograms is modelled as separate arrays.
- Introsort.Sort: sizes that are a positive multiple of 2^32 are excluded, because the logarithm of 0 is undefined there.
- SlabAllocators.SlabAllocator.Free: a block of size 0 at the very end of a slab is excluded, because the source does not lead it back to its allocator.
- SlabAllocators.SlabAllocator.Allocate: a fresh heap block is a parameter even when a slab has room and it is not used.
- SetAlgorithms.Merge: the output iterator is one that appends; an iterator over existing elements is not modelled, nor are the overlaps that the source forbids.
