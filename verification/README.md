# Verified models of the SystemProgramming algorithms

The SystemProgramming repository is mostly a collection of system-call programs. A few of its files hold algorithms
with state of their own, and this project models those in Dafny and proves what they are for:

- the timer wheel (`09_epoll/time_wheel.c`): N slots of doubly linked timers, a rotation count per timer, timers
  unlinked while the current slot is traversed;
- the timer heap (`09_epoll/time_heap.c`): a growable binary min-heap of timers with lazy deletion;
- the bounded buffer (`06_mutex/semaphone.c`): producers and consumers over a ring, two semaphores and a mutex;
- bubble sort with a comparator (`01_linux/bubble_sort.c`);
- the chained hash table (`11_algorithm/hash_table.c`);
- the linked list with head, tail and length (`11_algorithm/linked_list.c`).

Run `dafny verify dfyconfig.toml` to check everything.

## How the pieces fit

`Countdown.dfy` is the reference for both timer containers: a timer is a number of ticks still to wait. Its runs obey
exact expiry. `WheelModel.dfy` holds the wheel on values and proves that every run refines the countdown;
`TimeWheel.dfy` is the wheel as classes with pointers. `HeapModel.dfy` says what a heap of timers does, whatever its
order: its runs consist of adds, deletes, pops and ticks at arbitrary clock readings, and it has its own exact expiry and
its own account of what the array costs. `HeapShape.dfy` has parents, subtrees and heights; `TimeHeap.dfy` is the heap as
a class over an array. `SchedulerRuns.dfy` brings the two together, and drives a wheel and a heap side by side.
`Sequences.dfy` and `ModularArithmetic.dfy` hold what several files need.

The objects of `TimeWheel`, `TimeHeap`, `Dict` and `List` carry a ghost log of the operations they went through, and
`Valid()` ties the concrete state to what the reference says about that log. So the theorems about runs are theorems
about every reachable object. The two timer containers also carry a ghost trace with one entry per completed tick: the
names of the timers whose callbacks it ran, in order. Timers are named by the order of their acceptance.

The wheel is generalised to any number of slots N >= 1 and any slot interval TI >= 1 (60 and 1 in the code), the bounded
buffer to any capacity and any number of threads of either kind (5, and one each). Each file keeps the form of the code:
classes that update their fields and nodes in place, arrays sorted in place, loops where the code has loops. Where a loop
body or a branch would have made a method too large to prove at once, it has become a method of its own (`Link`, `Unlink`,
`Bypass`, `VisitNode`, `Sink`, `MoveHole`, `SinkNext`, `Splice`, `Search`, `Find`, `Pass`); in particular the code that
unlinks a wheel timer, which the source has twice, is written once.

Points where the model had to choose:

- Callbacks are modelled by the trace of their calls, and as set before the tick that runs them. A timer is in the wheel
  under `nodes`, in the heap under `members`. Each timer has a ghost field `live`: the destructor demands it, and the
  `del_timer` of the heap, which takes a timer in the heap or not yet added, demands it too.
- `del_timer` of the wheel takes a timer that is in the wheel, or NULL; in a run on values, deleting a timer that is
  no longer there does nothing, which is what a caller that cleared its pointer does.
- Both constructors of the heap accept a capacity of 0, and doubling 0 gives 0. `TimeHeap.Reserve` says when an add finds
  a cell: if and only if the capacity was above 0, which by `HeapModel.RoomExactly` is a matter of the initial capacity,
  whatever happened since. `TimeHeap.NoRoom` is the case that fails. The code would write behind the array there, so
  `AddTimer` demands a capacity above 0; `tick`, which reads the first cell before it looks at the size, does so too.
- `hashCode` depends on the platform: `unsigned long` may have 32 or 64 bits and `char` may be signed. Both are
  parameters. An `unsigned long` is a natural number below its modulus, shifts and masks are expressed by its digits.
- The mask of the fold has bits 28 to 31, which keeps the accumulator below 2^28 in 32 bits, but not always in 64. It does
  there if and only if no byte takes the sum of shifted accumulator and byte past 2^32 - 1 or below 0
  (`HashCodes.StaysBelowExactly`): the first happens to `HashCodes.CARRYING`, the second to any key that starts with a
  negative char, such as the single byte 128. The index of every key is the same for both widths if and only if the
  number of chains divides 2^32 (`HashCodes.IndexAgreesExactly`); the 10 chains of the program do not.
- A state of the bounded buffer also has histories: which items went in and out in the critical sections, by which
  threads, what each thread's calls of `rand` returned, and which items each thread is through with.
- Percolations count the moves of the hole. Arrays before and after say how far the timer went, so the counts are exact
  (`TimeHeaps.Sank` and `TimeHeaps.Rose`).
- A value of NULL in the hash table is the number 0. The length of the linked list is an `unsigned int` and wraps.

## Model

| member | source | states |
|---|---|---|
| Countdown.ExactExpiry | 09_epoll/time_wheel.c:58-145 | over every run, the tick at position j runs the timer accepted at position i if and only if as many ticks lie between them as its timeout stands for and it was not deleted in between; a timeout stands for one tick if it is shorter than the interval, and for the number of whole intervals in it otherwise |
| Countdown.TicksExactly | 09_epoll/time_wheel.c:65-71 | the tick count that add_timer computes is d if and only if d = 1 for a timeout below the interval, and d * interval <= timeout < (d + 1) * interval otherwise |
| Countdown.PendingAt | 09_epoll/time_wheel.c:58-145 | a timer is pending at a moment of a run if and only if it was not deleted and no more ticks have passed than its timeout stands for, and has then counted each of them |
| Countdown.TraceGrows | 09_epoll/time_wheel.c:112-145 | no later operation changes what an earlier tick ran |
| WheelModel.AddRefines | 09_epoll/time_wheel.c:58-91 | add_timer puts a timer at distance T from the cursor and ahead of all older ones in its slot, and moves no other |
| WheelModel.DelRefines | 09_epoll/time_wheel.c:92-111 | del_timer takes away that timer only; all others keep distance and order |
| WheelModel.TickLowers | 09_epoll/time_wheel.c:112-145 | in every slot, a timer left by a tick stood exactly one tick further away before it, in terms of rotation * N + ((slot - cursor) mod N) |
| WheelModel.TickFires | 09_epoll/time_wheel.c:112-143 | a tick runs exactly the timers at distance 0, which are those of the current slot without rotations left |
| WheelModel.TickRefines | 09_epoll/time_wheel.c:112-145 | a tick of the wheel is a tick of the countdown: same callbacks, youngest first, every other distance lowered by one |
| WheelModel.RunRefines | 09_epoll/time_wheel.c:58-145 | over every run and for every N the wheel holds exactly the pending timers at their distances, each slot in order of age, and every tick so far ran the countdown's timers, youngest first |
| WheelModel.SweepsIs | 09_epoll/time_wheel.c:116-143 | visiting the entries of a slot one at a time, lowering one or taking it out, leaves the survivors in order and runs the due ones in order |
| WheelModel.SurvivorsDescend | 09_epoll/time_wheel.c:116-143 | survivors of a tick keep their relative order |
| WheelModel.FiredDescends | 09_epoll/time_wheel.c:116-143 | the timers of one tick are run the most recently added first |
| WheelModel.DelAt | 09_epoll/time_wheel.c:92-111 | in a reachable wheel, deleting a timer is taking one node out of one slot |
| ModularArithmetic.SlotOfDistance | 09_epoll/time_wheel.c:73-76 | the slot and rotation that add_timer computes are the only ones at distance T from the cursor |
| TimeWheels.TimeWheel.constructor | 09_epoll/time_wheel.c:41-46 | a new wheel is empty and has no history |
| TimeWheels.TwTimer.constructor | 09_epoll/time_wheel.c:21-26 | a new timer is linked to nothing |
| TimeWheels.TimeWheel.Place | 09_epoll/time_wheel.c:65-76 | the slot and rotation chosen put the timer as many ticks away as its timeout stands for: d = rotation * N + ((slot - cursor) mod N) is 1 for a timeout below the interval, and otherwise d * TI <= timeout < (d + 1) * TI |
| TimeWheels.TimeWheel.AddTimer | 09_epoll/time_wheel.c:58-91 | NULL exactly for a negative timeout; otherwise a new live node at the distance the timeout stands for, all slots stay disjoint acyclic doubly linked lists, and the wheel is where its history says |
| TimeWheels.TimeWheel.Link | 09_epoll/time_wheel.c:80-89 | a node put at the head of a doubly linked list gives a doubly linked list that starts with it; other slots are untouched |
| TimeWheels.TimeWheel.Unlink | 09_epoll/time_wheel.c:97-110 | taking out any node, head or not, leaves a doubly linked list of the others in order; the node is deleted once |
| TimeWheels.TimeWheel.Bypass | 09_epoll/time_wheel.c:105-108 | the neighbours of a node that is not the head are linked to each other, and the rest of the list stays |
| TimeWheels.TimeWheel.Remove | 09_epoll/time_wheel.c:97-110 | taking a node out of its slot leaves every other slot as it was |
| TimeWheels.TimeWheel.DelTimer | 09_epoll/time_wheel.c:92-111 | exactly that timer leaves and is deleted; NULL changes nothing |
| TimeWheels.TimeWheel.VisitNode | 09_epoll/time_wheel.c:119-142 | one iteration of the loop: the visited node is live, and is either given one rotation less or run, unlinked and deleted; the cursor moves to the node behind it |
| TimeWheels.TimeWheel.Sweep | 09_epoll/time_wheel.c:113-143 | every node of the current slot is visited exactly once; the due ones are run in list order and deleted, the others stay in order with one rotation less |
| TimeWheels.TimeWheel.Tick | 09_epoll/time_wheel.c:112-145 | runs and deletes the due timers, leaves all others in the wheel, moves the cursor one slot on, and records in the trace what ran |
| HeapShape.SumOfHeightsBound | 09_epoll/time_heap.c:62-64 | the heights of all positions of a heap of n timers add up to less than n |
| HeapShape.RootHeight | 09_epoll/time_heap.c:138-154 | the root of a heap of n timers has height floor(log2 n) |
| HeapShape.Log2Bounds | 09_epoll/time_heap.c:138-154 | the logarithm is exact: 2^log2(n) <= n < 2^(log2(n) + 1) |
| HeapShape.DepthIsLog2 | 09_epoll/time_heap.c:83-85 | position i is floor(log2(i + 1)) steps below the root |
| TimeHeaps.RootIsLeast | 09_epoll/time_heap.c:100-105 | in heap order the first timer expires first |
| TimeHeaps.SinkStep | 09_epoll/time_heap.c:141-152 | moving the hole to the lesser child restores the edge above it and breaks none but those below the child |
| TimeHeaps.RiseStep | 09_epoll/time_heap.c:84-90 | moving the hole to the parent restores the edge below and breaks none but the one above the parent |
| TimeHeaps.SankStep | 09_epoll/time_heap.c:141-152 | one downward move of the hole: the path from the start grows by the child, whose timer goes up by one and expires before the sinking one, and the count of moves grows with the depth |
| TimeHeaps.RoseStep | 09_epoll/time_heap.c:84-90 | one upward move of the hole: the path grows by the parent, whose timer goes down by one and expires after the rising one, and the count of moves grows as the depth falls |
| TimeHeaps.SubtreeExtends | 09_epoll/time_heap.c:62-64 | repairing the subtree at a position extends heap order from the positions behind it to that position |
| TimeHeaps.HeapTimer.constructor | 09_epoll/time_heap.c:21-23 | a timer expires its delay after the clock reading at its creation |
| TimeHeaps.TimeHeap.PickChild | 09_epoll/time_heap.c:142-146 | the child picked expires no later than its sibling, and is the second one exactly if that is there and expires earlier |
| TimeHeaps.TimeHeap.constructor | 09_epoll/time_heap.c:33-43 | a new heap of the given capacity is empty |
| TimeHeaps.TimeHeap.PercolateDown | 09_epoll/time_heap.c:138-154 | if all edges below the children of a position hold, afterwards its whole subtree is in heap order; its timer sank along one path past timers that expire before it, each of which went up by one, and no other timer moved; the hole moves are exactly the levels sunk, at most the height of the position |
| TimeHeaps.TimeHeap.PercolateUp | 09_epoll/time_heap.c:82-91 | from heap order to heap order with exactly one timer more, which rose along one path past timers that expire after it, each of which went down by one; the hole moves are exactly the levels risen, at most floor(log2 size) |
| TimeHeaps.TimeHeap.Resize | 09_epoll/time_heap.c:155-169 | doubles the capacity, keeps the timers in place, copies as many as there are |
| TimeHeaps.TimeHeap.Reserve | 09_epoll/time_heap.c:79-81 | there is room for a further timer afterwards if and only if the capacity was not 0; the array doubles, and the timers are copied, exactly if it was full |
| TimeHeaps.TimeHeap.NoRoom | 09_epoll/time_heap.c:33-43 | a heap of capacity 0 can be constructed, and has no cell for a timer even after a resize |
| HeapModel.RoomExactly | 09_epoll/time_heap.c:155-169 | over every run the capacity is above 0 if and only if it was at the start |
| TimeHeaps.TimeHeap.AddTimer | 09_epoll/time_heap.c:75-92 | in any reachable heap with a capacity above 0, also after pops: adds exactly this timer, in heap order, across a resize if the array is full; the moves are exactly the levels it rose, at most floor(log2 size); NULL changes nothing |
| TimeHeaps.TimeHeap.AmortizedCopies | 09_epoll/time_heap.c:75-132 | in every reachable heap, whatever adds, deletes, pops and ticks made it, the elements copied by all resizes are the capacity gained and less than twice the timers ever in it: less than twice the adds if it started empty |
| HeapModel.CopiesAmortized | 09_epoll/time_heap.c:75-132 | over every run: copies equal the capacity gained, the timers fit, and a capacity that has grown is at most twice the timers ever held, less two |
| TimeHeaps.TimeHeap.DelTimer | 09_epoll/time_heap.c:93-99 | a timer that is not yet deleted loses its callback and stays where it is; NULL changes nothing |
| TimeHeaps.TimeHeap.Top | 09_epoll/time_heap.c:100-105 | a timer that expires first, NULL exactly for an empty heap |
| TimeHeaps.TimeHeap.PopRoot | 09_epoll/time_heap.c:112-113 | the last timer replaces the root and sinks to its place, in as many moves as levels: all timers but the root remain, in heap order |
| TimeHeaps.TimeHeap.DropLeast | 09_epoll/time_heap.c:106-115 | deletes a timer that expires first and no other, keeps heap order; the moves are exactly the levels that the former last timer sinks from the root, at most floor(log2 size) |
| TimeHeaps.TimeHeap.PopTimer | 09_epoll/time_heap.c:106-115 | the same by a client: the pop becomes part of the history and the heap stays where its history says, ready for any other operation; an empty heap stays as it is |
| TimeHeaps.TimeHeap.Drain | 09_epoll/time_heap.c:116-132 | the loop of tick: removes exactly the timers due by the clock, each after running it once if it still has a callback, in order of expiry |
| TimeHeaps.TimeHeap.Tick | 09_epoll/time_heap.c:116-132 | at clock c, runs exactly the timers with expire <= c that were not deleted, once each, in non-decreasing order, deletes all with expire <= c, keeps those with expire > c in heap order |
| TimeHeaps.TicksAsModelled | 09_epoll/time_heap.c:116-132 | what the heap's tick removes and runs is what the model of the timers says, by name |
| HeapModel.HeldAt | 09_epoll/time_heap.c:75-132 | over every run, a timer is in the heap at a moment after its add if and only if it was not popped and no tick's clock has reached its expiry, and has its callback if and only if it had one and was not deleted |
| HeapModel.ExactExpiry | 09_epoll/time_heap.c:75-132 | over every run and for arbitrary clock readings, also ones that go backwards: a tick runs a timer if and only if its clock has reached the expiry, no earlier tick since the add had, the timer had a callback, and it was neither deleted nor popped in between |
| HeapModel.TraceGrows | 09_epoll/time_heap.c:116-132 | no later operation changes what an earlier tick ran |
| TimeHeaps.TimeHeap.FromArray | 09_epoll/time_heap.c:44-66 | any timers are brought into heap order, the same multiset; the hole moves are exactly the levels sunk in all calls of percolate_down, fewer than there are timers |
| TimeHeaps.TimeHeap.Heapify | 09_epoll/time_heap.c:62-64 | bottom-up construction gives heap order on the same timers: every timer with children sinks once, the last first, from the array that the one before left, and the moves of all add up to less than the number of timers |
| TimeHeaps.TimeHeap.SinkNext | 09_epoll/time_heap.c:62-64 | one call of percolate_down extends heap order by one position and adds its levels to the moves |
| TimeHeaps.TimeHeap.Build | 09_epoll/time_heap.c:44-50 | the exception is thrown exactly when the capacity is less than the number of timers |
| SchedulerRuns.RunFollows | 09_epoll/time_heap.c:75-132 | given completed ticks + T as expiry and k as the k-th clock, the heap's timers with a callback are the pending ones of the countdown over every run, and its ticks run the same timers |
| SchedulerRuns.WheelAndHeapModelsAgree | 09_epoll/time_heap.c:75-132 | over every run of add, delete and tick, wheel and heap run the same timers on every tick |
| SchedulerRuns.WheelAndHeapAgree | 09_epoll/time_wheel.c:58-145 | a wheel object and a heap object that went through the same run have run the same timers on every tick, once each, although one unlinks deleted timers and the other only clears their callback |
| SchedulerRuns.StartBoth | 09_epoll/time_wheel.c:41-46 | a new wheel and a new heap stand side by side |
| SchedulerRuns.AddBoth | 09_epoll/time_wheel.c:58-91 | an add to both keeps them side by side: a valid timeout gives each a new timer with the same name, the heap's due as many ticks after the completed ones as the timeout stands for; a negative one changes neither |
| SchedulerRuns.DelBoth | 09_epoll/time_wheel.c:92-111 | a delete from both keeps them side by side: the wheel's node leaves, the heap's timer loses its callback |
| SchedulerRuns.TickBoth | 09_epoll/time_wheel.c:112-145 | a tick of both keeps them side by side, and both run the same timers, once each |
| SchedulerRuns.NextNameIsFree | 09_epoll/time_heap.c:75-92 | the name of the next timer is not that of a deleted one which is still in the heap |
| SchedulerRuns.Counterpart | 09_epoll/time_heap.c:93-99 | every timer in the wheel is in the heap too, and has its callback there |
| SchedulerRuns.HeapExpiresExactly | 09_epoll/time_heap.c:116-132 | exact expiry for every reachable heap object and any clock readings, each timer at most once per tick |
| SchedulerRuns.WheelExpiresExactly | 09_epoll/time_wheel.c:112-145 | exact expiry for every reachable wheel object, with the tick count bracketed by the timeout: each timer at most once per tick and the youngest first |
| SchedulerRuns.WheelCountsDown | 09_epoll/time_wheel.c:65-79 | at any moment the live nodes of a wheel object are the pending timers, and rotation * N + ((time_slot - cur_slot) mod N) of each is the ticks it still has to wait |
| BoundedBuffer.RunInv | 06_mutex/semaphone.c:17-50 | every state of every interleaving satisfies the invariant, and its step count is 7 per item written plus 6 per item read plus what the threads have begun |
| BoundedBuffer.StepKeepsInv | 06_mutex/semaphone.c:17-50 | any statement of any thread keeps tokens, exclusion, positions, order and whose items they are |
| BoundedBuffer.InitInv | 06_mutex/semaphone.c:55-59 | the initial values of semaphores, mutex and positions satisfy the invariant |
| BoundedBuffer.FifoOrder | 06_mutex/semaphone.c:24-43 | in every state of every interleaving, the items read followed by the ring's contents from out are the items written in the order of the critical sections |
| BoundedBuffer.WrittenAsDrawn | 06_mutex/semaphone.c:20-24 | in every state of every interleaving, what a thread wrote, in order, and then the one item it carries, are the values its calls of rand returned, modulo 100 |
| BoundedBuffer.TakenAsRead | 06_mutex/semaphone.c:41-43 | in every state of every interleaving, what a thread is through with, in order, and then the one item it holds, is what it read in its critical sections |
| BoundedBuffer.Delivered | 06_mutex/semaphone.c:20-43 | from end to end: the k-th item read is a producer's next value of rand, modulo 100, after those it had already written, and its reader's next item after those it had already read |
| BoundedBuffer.DrawnIsReturned | 06_mutex/semaphone.c:20 | the values recorded for a thread are those its calls of rand returned in the run, in order |
| BoundedBuffer.WriteHitsFreeCell | 06_mutex/semaphone.c:24 | a producer never overwrites an unread cell, and writes at the write count modulo the capacity |
| BoundedBuffer.ReadHitsOldest | 06_mutex/semaphone.c:41 | a consumer reads the oldest unread item, so no cell is read twice |
| BoundedBuffer.TokensConserved | 06_mutex/semaphone.c:19-46 | empty + full + the threads between a wait and the following post equals the capacity |
| BoundedBuffer.MutualExclusion | 06_mutex/semaphone.c:22-45 | at most one thread is inside a critical section |
| BoundedBuffer.StuckExactly | 06_mutex/semaphone.c:21-39 | no thread can move if and only if all are producers waiting at a full ring or all are consumers waiting at an empty one |
| BoundedBuffer.DeadlockFree | 06_mutex/semaphone.c:17-59 | with at least one thread of each kind, some thread can take a step in every state of every interleaving |
| BoundedBuffer.Throughput | 06_mutex/semaphone.c:17-50 | no interleaving runs on without items going through: n steps read at least (n - 7 capacity - 3 threads) / 13 items |
| BubbleSort.BubbleSort | 01_linux/bubble_sort.c:14-23 | permutes the first n elements and no others under any comparator; under a strict weak order the result is sorted and stable, with as many swaps as there were inversions |
| BubbleSort.Pass | 01_linux/bubble_sort.c:17-21 | the inner loop brings the last of the remaining elements to its place |
| BubbleSort.Swap | 01_linux/bubble_sort.c:7-11 | exchanges two cells |
| BubbleSort.InversionsSwap | 01_linux/bubble_sort.c:18-20 | one swap of neighbours in the wrong order removes exactly one inversion |
| BubbleSort.TiesSwap | 01_linux/bubble_sort.c:18-20 | a swap exchanges no two elements that tie |
| BubbleSort.StableSortIsUnique | 01_linux/bubble_sort.c:14-23 | sortedness and stability determine the result |
| BubbleSort.OwnComparatorsAreStrictWeak | 01_linux/bubble_sort.c:26-33 | the two comparators of the program are strict weak orders, so they sort stably |
| BubbleSort.OwnDirections | 01_linux/bubble_sort.c:26-33 | sorted by the one is ascending, by the other descending, and conversely |
| BubbleSort.SortAscending | 01_linux/bubble_sort.c:41 | with ascendingCompare the same elements stand in ascending order |
| BubbleSort.SortDescending | 01_linux/bubble_sort.c:48 | with descendingCompare the same elements stand in descending order |
| HashCodes.HashCode | 11_algorithm/hash_table.c:33-45 | computes the fold of the key and returns an index below the size |
| HashCodes.FoldRound | 11_algorithm/hash_table.c:37-42 | one round of the loop, with its test for bits to fold, is one step of the fold |
| HashCodes.FoldExactly | 11_algorithm/hash_table.c:36-43 | the accumulator starts at 0; each byte shifts it by four bits, adds the char modulo the width, clears bits 28 to 31, turns over each of bits 4 to 7 where the bit 24 places above was set, and leaves all other bits |
| HashCodes.TopIsFolded | 11_algorithm/hash_table.c:38-42 | the three statements on g clear bits 28 to 31, turn over the bits 24 places below those that were set, and leave all others |
| HashCodes.LettersFold | 11_algorithm/hash_table.c:36-44 | the key abcdefg, which has bits to fold, hashes to 0x789ABA7 and goes to chain 7 of ten on every platform |
| HashCodes.FoldBits | 11_algorithm/hash_table.c:36-43 | after every byte bits 28 to 31 of the accumulator are clear, and with 32 bits it is below 2^28 |
| HashCodes.FoldLow | 11_algorithm/hash_table.c:36-43 | the low 32 bits of the accumulator are the same for both widths of an unsigned long |
| HashCodes.IndexAgreesExactly | 11_algorithm/hash_table.c:36-44 | the index of every key is the same for both widths if and only if the size divides 2^32 |
| HashCodes.CarryPasses | 11_algorithm/hash_table.c:36-44 | the key that tells the widths apart for every other size: its accumulators differ by exactly 2^32; among ten chains it has index 5 in 64 bits and 9 in 32 |
| HashCodes.StaysBelowExactly | 11_algorithm/hash_table.c:36-43 | in 64 bits the accumulator stays below 2^28 after every byte, as in 32, if and only if at every byte the shifted accumulator plus the byte is neither negative nor 2^32 or more |
| HashCodes.NegativeWraps | 11_algorithm/hash_table.c:37 | where chars are signed, the single byte 128 takes a 64-bit accumulator out of that range, to 0xFFFFFFFF0FFFFF70 |
| HashTables.Dict.constructor | 11_algorithm/hash_table.c:86-96 | every chain has its own dummy head, and every key has the value NULL |
| HashTables.Dict.DictGet | 11_algorithm/hash_table.c:47-58 | returns a value exactly if it was put for this key content and every earlier put for it was a NULL; NULL if and only if nothing but NULL was ever put for it |
| HashTables.Dict.Search | 11_algorithm/hash_table.c:48-57 | the loop returns the value of the first entry of the key in its chain |
| HashTables.FirstPutExactly | 11_algorithm/hash_table.c:47-74 | the value of a key is the one put first, apart from NULLs |
| HashTables.NothingPut | 11_algorithm/hash_table.c:47-74 | a key has no value if and only if no value but NULL was ever put for it |
| HashTables.Dict.DictPut | 11_algorithm/hash_table.c:60-74 | returns 0 and changes nothing if the key has a value; otherwise returns 1, gives the key this value, NULL included, and no other key another; each entry stays in the chain of its hash and hides only entries without a value |
| HashTables.Dict.Insert | 11_algorithm/hash_table.c:65-73 | an absent key gets its value, and no other key another |
| HashTables.Dict.Prepend | 11_algorithm/hash_table.c:65-72 | the new entry stands first in the chain of its hash and hides only entries without a value; other chains are untouched |
| HashTables.Splice | 11_algorithm/hash_table.c:71-72 | a node spliced in behind the dummy head precedes the whole chain |
| HashTables.LookupNull | 11_algorithm/hash_table.c:47-58 | a key that is looked up in vain has no entry with a value |
| LinkedLists.List.constructor | 11_algorithm/linked_list.c:67-69 | an empty list |
| LinkedLists.List.AddNode | 11_algorithm/linked_list.c:19-31 | appends a node with the value behind all others; tail is that node, and the length is the number of nodes modulo 2^32 |
| LinkedLists.List.Append | 11_algorithm/linked_list.c:24-29 | the node hangs behind all others, in an empty list too, and tail is that node |
| LinkedLists.List.RemoveNode | 11_algorithm/linked_list.c:33-56 | takes out the first node with the value and no other, repairs head and tail, and the length is the number of nodes modulo 2^32; without such a node nothing changes |
| LinkedLists.List.Find | 11_algorithm/linked_list.c:37-54 | the cursor stops at the first node with the value, its predecessor behind it |
| LinkedLists.List.Unlink | 11_algorithm/linked_list.c:41-49 | taking out any node, head, tail or neither, leaves the others linked in order with the right head and tail |
| LinkedLists.RemoveNodeFrom | 11_algorithm/linked_list.c:33-36 | a NULL list is ignored |
| LinkedLists.RemoveFirstAt | 11_algorithm/linked_list.c:39-55 | removing a value drops the position of its first occurrence |
| LinkedLists.RemoveFirstCounts | 11_algorithm/linked_list.c:33-56 | one removal takes away one occurrence, or nothing |
| LinkedLists.OnlyAdded | 11_algorithm/linked_list.c:19-56 | over any history without a removal of it, a value is in the list as often as it was added |
| LinkedLists.AddThenRemove | 11_algorithm/linked_list.c:19-56 | after any history, adding a new value and removing it again gives the same contents |

## Left out

- Callbacks that add or delete timers themselves. In the wheel, one that adds a timer whose tick count is a multiple of N
  would see it run a rotation late; in the heap, one that adds an earlier timer would make the pop remove the wrong one.
- The clock, random numbers, sleeping, output, allocation failure: the clock and the items are inputs.
- The destructors of the wheel and the heap.
- The heap timer's expiry and the hash table's keys do not change once the object exists; callers could change them.
- Overflow of `int` counters and of `time_t`; only the length of the linked list wraps.
- `dictDelete`, which is declared and not defined, and the unused `used` and `sizemask` fields.
- The uninitialised `len` in the list's `main`: the model starts at 0. Removed list nodes are not freed by the code.
- Printing a list, and the `main` functions apart from the initial states they set up.
- `06_mutex/pthread_mutex.c`, an easier case of the bounded buffer.
- The socket, epoll, pipe, process, signal, mmap and asynchronous I/O programs: what they do is in the kernel.
