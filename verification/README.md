# A verified model of the C utilities

This project models the concurrent and linked-structure code of the repository and proves what that
code is for. It has four parts.

**The lock-free ring** (`x_ring/`). `RingProtocol` is the ring as a transition system: any number of
threads, one step per shared access (load of a head, test of the opposite tail, compare-and-set or
store of the head, growth of the slot, every byte copied, the length, each test of the tail, the store
of the tail), in every combination of single and multi producer and consumer: `StepProd` is
`x_ring/x_ring.c:109-137` and `186-234`, `StepCons` is `236-265` and `267-313`. Free-running tickets
and logs are recorded beside the concrete state; no step of the code reads them. `RingInvariant`
holds the inductive invariant, `RingTheorems` what follows over whole runs, `RingFree` exactly when
the code does what the ring of the header would do, `RingProgress` and `RingSchedules` the freedom from
deadlock, `RingCalls` the progress of whole calls with their retry loops, `RingHistory` what calls hand in
and get back, read off a run's calls and returns alone, `RingWitness` reachable counterexamples. `XRing` is the same code as a class whose methods update the fields in
place; it has the protocol's invariant as its validity and the protocol's queue as its contents.

The header describes indices that run freely over 32 bits and are masked on access; the code stores
masked indices. The model follows the code. The consequence is a result of this project:

* With the single-producer and single-consumer entry points every interleaving is safe.
* With the multi entry points a run is safe if and only if every claim that succeeded was made while
  its guard (room left, or an entry published) still held (`RunSafeIffGuarded`). The documented "not
  preemptable" note, read as "a head advances by fewer than `size` between a load and its
  compare-and-set", implies that condition (`LapBoundedRunIsSafe`).
* A run is, ticket for ticket, a run of the header's ring, which compares and subtracts unmasked indices,
  if and only if no thread refuses or claims by a head that has gone stale (`RunIsFreeRunIff`). Under the
  lap bound only stale refusals are left (`LapBoundedRunIsFreeRun`), and they do occur
  (`StaleRefusalIsNoFreeStep`); with one producer and one consumer every run is one of the header's ring
  (`SpscRunIsFreeRun`).
* In every run in which claims keep their guards, the messages that successful dequeues return are, in order
  and byte for byte, the beginning of those that the calls of successful enqueues were given, and the ring
  holds the rest (`RunIsFifo`, `LapBoundedRunIsFifo`, `SpscRunIsFifo`). In every run whatsoever a call refuses
  only by its own test of a head it has itself loaded (`NospaceIsOwnTest`, `NoentIsOwnTest`), and a lost
  compare-and-set sends it back to its load (`LostCompareAndSet`).
* Without the guards messages are lost or handed out twice: `LateClaimLosesMessages` gives a run of a two-slot
  ring after which all calls have returned, three messages were accepted, one was handed out and the ring
  reports empty; `LateClaimDuplicatesMessage` one after which the first of two messages was handed out
  twice.
* NOSPACE from `x_ring_mp_enqueue` and NOENT from `x_ring_mc_dequeue` are not exact
  (`MpNospaceCanBeSpurious`, `McNoentCanBeSpurious`). They are right exactly when the head the call loaded
  still is the stored head at its test, however old it is (`MpNospaceIsExactIff`, `McNoentIsExactIff`,
  which also say what this means for the entries in flight and for the published queue).

**The thread pool** (`threadpool.cpp`). `PoolProtocol` is the monitor: a mutex, two condition variables
with spurious wakeups and signals that wake at least one waiter (POSIX.1-2017), any number of workers
and submitters, one step per statement. A task may itself call `add_task`: each worker has a submitter of
its own for the task it is running, and the task does not end before that call returns. `PoolInvariant`
has the counting invariant, `PoolTheorems` its consequences, `PoolSchedules` progress under every schedule,
`PoolWitness` a deadlock, `PoolHistory` what becomes of the tasks handed to `add_task`. `ThreadPool` has the fields and the stretches of code under the mutex, on the
linked queue.

Every `add_task` adds the task it was given, exactly once, whether or not it had to sleep, and tasks are
started in the order in which they were added (`EachCallAddsOnce`, `RunFollowsTasks`).

The pool can deadlock, and the model says exactly when. A pool of one worker and room for one task, given a
task that submits two, gets stuck for ever (`ResubmittingTaskDeadlocks`, `DeadlockIsForever`). With work
left, a worker's thread can run if and only if not every worker's task is asleep in its own `add_task`
(`SomeWorkerCanRunIff`); the pool can be drained if and only if it is not deadlocked
(`CanDrainIffNotDeadlocked`); and from a state in which one worker is not in its own `add_task`, every
schedule without further calls or spurious wakeups drains it (`EveryScheduleDrains`). A worker is never in
its own `add_task` if tasks do not submit tasks (`NoTaskSubmits`). From which states every such schedule
drains the pool is exactly `MustDrainIff` in `PoolDraining`: where every worker is in its own `add_task`,
those in which the threads outside the pool that are about to add a task are fewer than the free places.

**The linked structures** (`link_list.c`, `queue.c`, `stack.c`, `hash_map.cpp`). `LinkList` is the
circular list with a sentinel, made of heap nodes. The methods reach a node's fields through accessors
that demand that the node has not been freed, and every node that leaves a list is proved to be freed.
`Queue` and `Stack` are its adapters. `HashSpec` gives the meaning of buckets as a mathematical map and
`HashMap` is the class on an array of lists, in place.

**Arithmetic and text** (`ipv6_add.c`, `utils.c`). `Ipv6Add` adds a signed 32-bit number to a 16-byte
address in place; `HexCodec` and `DottedQuad` are the hexadecimal codec and the dotted-quad recogniser
on NUL-terminated buffers (`CText`).

`Bits` and `RingIndex` hold the bit-level facts: the power-of-two test and rounding, masking as
remainder, slots as remainders of tickets, and 32-bit wrap-around.

## Model

| member | source | states |
|---|---|---|
| Bits.PowerOfTwoTestIsExact | x_ring/x_ring.c:25-28 | the bit trick answers exactly "is a power of two", also for 0 |
| Bits.RoundupPowerOfTwo | x_ring/x_ring.c:30-42 | for 1 <= n <= 2^63 the least power of two >= n; 0 for 0, and above 2^63 the shift overflows to 0 |
| Bits.MaskIsRemainder | x_ring/x_ring.c:117 | `& mask` is the remainder by the size |
| RingIndex.NextIndexIsAdvance | x_ring/x_ring.c:201 | 32-bit add and mask steps to the next slot cyclically |
| RingIndex.SlotIsRemainder | x_ring/x_ring.h:92-97 | the slot reached after k steps is k mod size |
| RingIndex.SlotInjective | x_ring/x_ring.c:211 | below one lap, equal slot numbers mean equal tickets |
| RingIndex.WrappedIndexMasksToSlot | x_ring/x_ring.h:92-97 | masking a free-running index that wrapped at 2^32 gives the slot of its ticket |
| RingIndex.MaskedDifference | x_ring/x_ring.c:356-361 | the 32-bit difference of two slots, masked, is the ticket difference |
| RingInvariant.InitInv | x_ring/x_ring.c:62-82 | a fresh ring meets the invariant |
| RingInvariant.RoomMeansNotFull | x_ring/x_ring.c:204-208 | on an up-to-date head the masked NOSPACE test is exactly "size - 1 entries in flight" |
| RingInvariant.EntryMeansNotEmpty | x_ring/x_ring.c:280-282 | on an up-to-date head the masked NOENT test is exactly "nothing published unclaimed" |
| RingInvariant.ClaimedSlotIsPrivate | x_ring/x_ring.c:214-220 | a claimed slot differs from every other claimed or occupied slot |
| RingInvariant.ClaimedEntryHolds | x_ring/x_ring.c:295-301 | while a consumer copies, its slot holds the bytes and length of the producer with the same ticket |
| RingInvariant.ReleaseHandsOutNext | x_ring/x_ring.c:303-312 | the releasing consumer returns the message of the next ticket in claim order |
| RingInvariant.StepKeepsInv | x_ring/x_ring.c:109-313 | every guarded step of every thread keeps ticket order (cons.tail <= cons.head <= prod.tail <= prod.head <= cons.tail + size - 1), publication, FIFO and buffer bounds |
| RingTheorems.GuardedPrefixIsInvariant | x_ring/x_ring.c:109-313 | the invariant after every guarded prefix of a run |
| RingTheorems.InvExcludesSharing | x_ring/x_ring.c:214-220 | slots of all claims on both sides are pairwise distinct, and distinct from published entries |
| RingTheorems.RunSafeIffGuarded | x_ring/x_ring.c:193-212 | a run is safe throughout if and only if every successful claim still had its guard |
| RingTheorems.UnguardedClaimOverruns | x_ring/x_ring.c:211 | one successful claim without its guard breaks the ticket order at once |
| RingTheorems.LapBoundGivesGuard | x_ring/x_ring.h:59-60 | less than a lap between load and compare-and-set implies the guard |
| RingTheorems.LapBoundedRunIsSafe | x_ring/x_ring.h:59-60 | any number of producers and consumers: every lap-bounded run is safe |
| RingTheorems.SpscRunIsSafe | x_ring/x_ring.c:109-137 | one producer, one consumer: every interleaving is safe, with no hypothesis |
| RingTheorems.MaskedTestsAgreeWithTickets | x_ring/x_ring.c:211-231 | under the lap bound each compare-and-set and tail test decides as the comparison of free-running tickets |
| RingTheorems.MaskedRoomTestMeaning | x_ring/x_ring.c:204-208 | for a head however stale, the tests for room and for an entry compare two tickets modulo the size; a head not behind the opposite tail is refused only when current and rightly |
| RingTheorems.StaleWithinALap | x_ring/x_ring.c:277-282 | for a head loaded less than a lap ago, the one way to be stale and refused |
| RingTheorems.MpNospaceIsExactIff | x_ring/x_ring.c:193-212 | at the test step, mp NOSPACE and the truth about room differ if and only if one says full while prod.head is no longer the loaded head; and when NOSPACE means a full published queue |
| RingTheorems.McNoentIsExactIff | x_ring/x_ring.c:276-293 | at the test step, mc NOENT and the truth about entries differ if and only if one says none while cons.head is no longer the loaded head; and when NOENT means an empty queue |
| RingTheorems.StepRefinesQueue | x_ring/x_ring.c:186-313 | every step is a step of a FIFO queue of capacity size - 1; the message enqueued is the one the call carries, which EnqIsLatestCall traces to its argument |
| RingTheorems.RunRefinesQueue | x_ring/x_ring.c:186-313 | every guarded run is a run of that queue from empty |
| RingTheorems.LapBoundedRunRefinesQueue | x_ring/x_ring.c:186-313 | any number of producers and consumers: every lap-bounded run is a run of that queue |
| RingTheorems.SpscRunRefinesQueue | x_ring/x_ring.c:109-137 | one producer and one consumer: every interleaving is a run of that queue |
| RingTheorems.PendingBelongsToSole | x_ring/x_ring.c:134 | with a sole producer or consumer nothing of anybody else's is pending |
| RingTheorems.SpNospaceIsExact | x_ring/x_ring.c:115-123 | sp enqueue fails if and only if the queue is full at its load of cons.tail |
| RingTheorems.ScNoentIsExact | x_ring/x_ring.c:244-248 | sc dequeue fails if and only if the queue is empty at its load of prod.tail |
| RingTheorems.ObserversMatchQueue | x_ring/x_ring.c:342-368 | full, empty, count and free_count agree with the queue despite unsigned wrap-around |
| RingFree.StepSimulated | x_ring/x_ring.h:92-97 | a step is the step of a ring whose indices run freely, are compared as they are and masked only to select a slot, if and only if it is no refusal or claim by a stale head |
| RingFree.RunIsFreeRunIff | x_ring/x_ring.h:92-97 | a run, its indices replaced by tickets, is a run of that ring if and only if none of its steps is such a decision |
| RingFree.LapBoundedRunIsFreeRun | x_ring/x_ring.h:92-97 | for a lap-bounded run: if and only if none of its refusals is stale |
| RingFree.SpscRunIsFreeRun | x_ring/x_ring.h:92-97 | with one producer and one consumer: always |
| RingProgress.OneProducerOwnsTail | x_ring/x_ring.c:223-231 | exactly one pending producer passes the masked tail test: the one that won ticket pt |
| RingProgress.OneConsumerOwnsTail | x_ring/x_ring.c:303-311 | likewise for consumers |
| RingProgress.ProdTurnStep | x_ring/x_ring.c:214-231 | each step of that producer brings it closer, and its publication moves the tail by one |
| RingProgress.ConsTurnStep | x_ring/x_ring.c:295-311 | likewise for consumers, and the release hands out the ticket's message |
| RingProgress.FinishProd | x_ring/x_ring.c:214-233 | the producer whose turn it is can publish running alone |
| RingProgress.FinishCons | x_ring/x_ring.c:295-312 | the consumer whose turn it is can release running alone |
| RingProgress.ProducersCanFinish | x_ring/x_ring.c:222-231 | all pending producers can publish, in ticket order |
| RingProgress.ConsumersCanFinish | x_ring/x_ring.c:303-311 | all pending consumers can release, in ticket order |
| RingProgress.EveryClaimCanFinish | x_ring/x_ring.c:186-313 | from every invariant state there is a schedule of the claimants' own steps that completes all claims |
| RingSchedules.StepLowersWork | x_ring/x_ring.c:214-231 | a claimant's step lowers the total work left, or is a failed test of a tail and changes nothing |
| RingSchedules.SomebodyCanWork | x_ring/x_ring.c:223-231 | while anything is pending some claimant's step does lower it |
| RingSchedules.FinishedMeansNothingPending | x_ring/x_ring.c:303-311 | only failed tail tests are left if and only if nothing is pending |
| RingSchedules.EveryScheduleFinishes | x_ring/x_ring.c:186-313 | every schedule of claimants has at most that many effective steps, and where only failed tests are left every claim is complete |
| RingCalls.UnclaimedStep | x_ring/x_ring.c:193-212 | loading, testing or failing the compare-and-set brings a call nearer to its claim, refusing ends it; a compare-and-set fails only for a stale head |
| RingCalls.StepLowersCost | x_ring/x_ring.c:186-313 | every guarded step of every call lowers a total cost, or is a failed test of a tail and changes nothing |
| RingCalls.EveryCallScheduleEnds | x_ring/x_ring.c:186-313 | every schedule of the calls in progress has at most that many effective steps, and where only failed tail tests are left every call has returned |
| RingHistory.EnqueueRefusal | x_ring/x_ring.c:204-208 | an enqueue returns -1 exactly at a test that finds (head + 1) mod size at cons.tail, and otherwise only 0 |
| RingHistory.DequeueRefusal | x_ring/x_ring.c:277-282 | a dequeue returns -2 exactly at a test that finds its head at prod.tail, with the caller's entry as it was, and otherwise only 0 |
| RingHistory.LostCompareAndSet | x_ring/x_ring.c:211-212 | a lost compare-and-set, of either side, changes nothing shared and sends the call back to its load with the same message or entry |
| RingHistory.SlotGrowsOnlyIfNeeded | x_ring/x_ring.c:214-218 | a slot's buffer is replaced, by one of the message's length, exactly when its size is less than that length |
| RingHistory.EntryGrowsOnlyIfNeeded | x_ring/x_ring.c:295-299 | the caller's buffer is replaced, by one of the slot's size, exactly when its size is less than the content length; `size` is never updated |
| RingHistory.RemembersLastCall | x_ring/x_ring.c:186-313 | in every run a thread inside a call holds the message or the entry its latest call was given, and has returned from that call |
| RingHistory.NospaceIsOwnTest | x_ring/x_ring.c:193-208 | in every run NOSPACE is returned only where the slot after a head loaded by this very call is the stored cons.tail, with the ring unchanged |
| RingHistory.NoentIsOwnTest | x_ring/x_ring.c:276-282 | in every run NOENT is returned only where a head loaded by this very call is the stored prod.tail, with the ring and the caller's entry unchanged |
| RingHistory.EnqIsLatestCall | x_ring/x_ring.c:219-231 | in every run a step that is the queue's enqueue of m belongs to a thread whose latest call is enqueue with m |
| RingHistory.SentIsGiven | x_ring/x_ring.c:211-220 | in every run the message of every ticket is the argument of the call that won the ticket |
| RingHistory.ReceivedIsGiven | x_ring/x_ring.c:186-313 | in every guarded run whatever a dequeue handed out is the argument of an earlier enqueue call |
| RingHistory.RunIsFifo | x_ring/x_ring.c:186-313 | in every guarded run what successful dequeues handed out is, in order, the beginning of what successful enqueues were given; the rest, at most size - 1 messages, is what count reports |
| RingHistory.LapBoundedRunIsFifo | x_ring/x_ring.h:59-60 | the same for every lap-bounded run with any number of producers and consumers |
| RingHistory.SpscRunIsFifo | x_ring/x_ring.c:109-137 | the same for one producer and one consumer, with no hypothesis |
| RingWitness.LateClaimLosesMessages | x_ring/x_ring.c:193-212 | the lap bound is needed by producers: a reachable state with two messages lost |
| RingWitness.LateClaimDuplicatesMessage | x_ring/x_ring.c:276-293 | the lap bound is needed by consumers: a reachable state with one message handed out twice |
| RingWitness.MpNospaceCanBeSpurious | x_ring/x_ring.c:204-208 | mp enqueue can report NOSPACE on an empty ring |
| RingWitness.McNoentCanBeSpurious | x_ring/x_ring.c:276-282 | mc dequeue can report NOENT on a ring that holds a message |
| RingWitness.StaleRefusalIsNoFreeStep | x_ring/x_ring.c:204-208 | a reachable state within the lap bound where the code refuses and the header's ring goes on to its compare-and-set |
| XRing.XRing.constructor | x_ring/x_ring.c:47-85 | for 1 <= count <= 2^31 an empty ring whose size is the least power of two >= count; for every other count the truncated size is 0 |
| XRing.XRing.CmpSetProdHead | x_ring/x_ring.c:8-23 | compare-and-set of prod.head |
| XRing.XRing.CmpSetConsHead | x_ring/x_ring.c:8-23 | compare-and-set of cons.head |
| XRing.XRing.FillSlot | x_ring/x_ring.c:214-220 | grows the slot only if needed and stores exactly the message; no other slot changes |
| XRing.XRing.CopySlotOut | x_ring/x_ring.c:254-260 | the caller gets exactly the slot's message, in its own buffer if its size suffices and else in one of the slot's size |
| XRing.XRing.SpEnqueue | x_ring/x_ring.c:109-137 | appends the message, or NOSPACE with nothing changed exactly when full |
| XRing.XRing.MpEnqueue | x_ring/x_ring.c:186-234 | the same when no other thread interferes; its loops end at once |
| XRing.XRing.ScDequeue | x_ring/x_ring.c:236-265 | removes and returns the oldest message, or NOENT with nothing changed exactly when empty |
| XRing.XRing.McDequeue | x_ring/x_ring.c:267-313 | the same when no other thread interferes |
| XRing.XRing.Full | x_ring/x_ring.c:342-347 | full means size - 1 entries |
| XRing.XRing.Empty | x_ring/x_ring.c:349-354 | empty means no entry |
| XRing.XRing.Count | x_ring/x_ring.c:356-361 | the number of entries |
| XRing.XRing.FreeCount | x_ring/x_ring.c:363-368 | size - 1 minus the number of entries |
| XRing.XRing.Print | x_ring/x_ring.c:321-340 | drains the ring in order and returns how many messages there were |
| PoolInvariant.StepKeepsInv | threadpool.cpp:68-109 | every step of every thread keeps the counting invariant |
| PoolInvariant.RunInvariant | threadpool.cpp:17-109 | it holds in every state of every run, and there are threadnum workers, or one if threadnum is not positive |
| PoolTheorems.NoLostWakeup | threadpool.cpp:94-107 | with the mutex free, a sleeping worker means at least queue_size workers up and idle |
| PoolTheorems.SleepingSubmitterMeansFull | threadpool.cpp:73-75 | with the mutex free, a thread sleeping in add_task means a full queue |
| PoolTheorems.NoDeadlock | threadpool.cpp:73-105 | with the mutex free and a queued task or (given room for a task) a sleeping submitter, some worker can take a step of work(), provided some worker is not in its own add_task |
| PoolTheorems.SomeWorkerCanRunIff | threadpool.cpp:73-107 | in that situation a worker's thread can run if and only if not every worker's task is asleep in its own add_task |
| PoolTheorems.DeadlockStays | threadpool.cpp:73-75 | no step of anybody ends a deadlock or moves a task |
| PoolTheorems.DeadlockIsForever | threadpool.cpp:73-75 | after any further steps, calls and wakeups the deadlock is still there |
| PoolTheorems.NoTaskSubmits | threadpool.cpp:107 | if no task calls add_task, no worker is ever in its own add_task |
| PoolWitness.ResubmittingTaskDeadlocks | threadpool.cpp:73-107 | one worker, room for one task, a task that submits two: a reachable deadlock with a task queued and no worker able to run |
| PoolTheorems.DequeueNeverFails | threadpool.cpp:98-101 | the failed-dequeue branch, which would relock a held mutex, is never taken |
| PoolTheorems.RunConservesTasks | threadpool.cpp:78-102 | of the tasks logged as added: added = taken ++ queued in order, the queue is bounded, and with no capacity nothing is ever added |
| PoolHistory.PendingIsLastCall | threadpool.cpp:68-79 | a thread still on its way through add_task, asleep or woken, holds the task its latest call was given |
| PoolHistory.AddedIsSubmitted | threadpool.cpp:77-80 | whatever was added is, in order, what the adding thread's latest call was given |
| PoolHistory.EachCallAddsOnce | threadpool.cpp:68-86 | every call of add_task has added exactly one task or is still in progress with it |
| PoolHistory.RunFollowsTasks | threadpool.cpp:68-107 | the tasks handed to add_task are, in the order of adding, those started, the one just taken and those queued |
| PoolSchedules.TakeOldest | threadpool.cpp:94-107 | a runnable worker whose task is not in add_task, alone, takes the oldest task and gets to run it |
| PoolSchedules.WorkersDrainQueue | threadpool.cpp:93-109 | if some worker is not in its own add_task, the workers alone can take every queued task, in order, and wake every sleeping submitter |
| PoolSchedules.HolderReleases | threadpool.cpp:72-86 | whoever holds the mutex can release it |
| PoolSchedules.OwnStepLowers | threadpool.cpp:68-109 | every step but a new call or a spurious wakeup lowers a measure |
| PoolSchedules.TerminalMeans | threadpool.cpp:73-105 | where no thread can move, everything is taken and nobody sleeps in add_task, or every worker is asleep in its own call |
| PoolSchedules.EveryScheduleDrains | threadpool.cpp:68-109 | every schedule without further calls or spurious wakeups is bounded by the measure and ends drained or deadlocked, and drained if some worker was not in its own add_task |
| PoolSchedules.EveryTaskCanBeTaken | threadpool.cpp:68-109 | from every state of every run in which some worker is not in its own add_task, a schedule that drains the pool |
| PoolSchedules.CanDrainIffNotDeadlocked | threadpool.cpp:68-109 | with the mutex free and room for a task, the pool can be drained if and only if it is not deadlocked |
| PoolDraining.MustDrainIff | threadpool.cpp:68-109 | with the mutex free, every schedule without further calls or spurious wakeups drains the pool if and only if nothing can be added, some worker is not in its own add_task, or the outside threads about to add are fewer than the free places |
| ThreadPool.ThreadPool.constructor | threadpool.cpp:17-38 | the fields of every initial protocol state with that bound |
| ThreadPool.ThreadPool.MustWaitToAdd | threadpool.cpp:73 | the wait test of add_task decides as the protocol's step |
| ThreadPool.ThreadPool.AddTask | threadpool.cpp:76-83 | enqueue and increment make the protocol's two steps on the linked queue |
| ThreadPool.ThreadPool.MustWaitToTake | threadpool.cpp:95 | the wait test of work decides as the protocol's step |
| ThreadPool.ThreadPool.TakeTask | threadpool.cpp:98-102 | dequeue and decrement make the protocol's two steps; a failed dequeue skips the decrement |
| LinkList.NothingMatchesBefore | link_list.c:78-82 | the search stops at the first match |
| LinkList.StopsAtFirstBreak | link_list.c:122-126 | a traversal stops right after the first BREAK |
| LinkList.TravelDeleteIsFilter | link_list.c:189-206 | what the removing traversal keeps and destroys of its prefix are the two filters by the comparison |
| LinkList.CheckIsFilter | link_list.c:149-159 | what the check keeps is exactly what its predicate answers non-zero for, in order; without a predicate everything |
| LinkList.FilterIsExact | link_list.c:149-159 | filtering keeps the accepted elements with their multiplicity and no others |
| LinkList.CircleWith | link_list.c:60-69 | splicing one node into a circle gives the circle with that node at that index |
| LinkList.CircleWithout | link_list.c:96-97 | bypassing one node gives the circle without it |
| LinkList.LList.constructor | link_list.c:5-18 | an empty circle |
| LinkList.LList.Insert | link_list.c:50-72 | forward inserts at the front, backward at the end |
| LinkList.LList.Find | link_list.c:74-85 | the node of the first match, or the sentinel |
| LinkList.LList.Delete | link_list.c:87-104 | removes, destroys and frees exactly the first match, or -1 and nothing changed |
| LinkList.LList.FindValue | link_list.c:106-117 | the payload of the first match |
| LinkList.LList.Fetch | link_list.c:164-179 | copies out, removes and frees exactly the first match, or -1 and nothing changed |
| LinkList.LList.Travel | link_list.c:118-127 | calls op on the prefix up to and including the first BREAK, in order |
| LinkList.LList.GetNum | link_list.c:129-140 | the length |
| LinkList.LList.WalkOne | link_list.c:150-157 | one turn of a removing walk: the next node is read before the current one is freed, and the walk goes on from it |
| LinkList.LList.Check | link_list.c:142-162 | keeps exactly the nodes the predicate answers non-zero for, in order, frees every other node and returns the original length |
| LinkList.LList.TravelDelete | link_list.c:182-207 | filters the visited prefix, leaves the rest, destroys exactly the matches in order and frees their nodes |
| LinkList.LList.Clear | link_list.c:35-48 | frees every node, hands every payload to the destructor in order, returns how many |
| Queue.Enqueue | queue.c:15-18 | appends |
| Queue.Dequeue | queue.c:25-28 | removes and returns the first element, or -1 |
| Queue.RunIsFifo | queue.c:15-28 | over any operations, what went in is what came out followed by what is left |
| Stack.Push | stack.c:15-18 | puts on top |
| Stack.Pop | stack.c:25-28 | removes and returns the top, or -1 |
| Stack.BalancedRunRestores | stack.c:15-28 | a balanced run leaves what lay below as it was and does not depend on it |
| Stack.PushAllReverses | stack.c:15-18 | pushing a sequence stacks it in reverse |
| Stack.PopAllEmpties | stack.c:25-28 | popping everything hands it out from the top down |
| HashSpec.IndexInRange | hash_map.cpp:73-77 | the bucket number is in range and congruent to the hash, negative or not |
| HashSpec.PositionIsExact | hash_map.cpp:114-126 | an equal key anywhere in the table is exactly the one the search finds |
| HashSpec.InsertKeepsWellFormed | hash_map.cpp:68-112 | every entry stays in its hash's bucket and no two keys are equal |
| HashSpec.EraseKeepsWellFormed | hash_map.cpp:142-155 | likewise for erase |
| HashSpec.AsMapExact | hash_map.cpp:168-171 | the buckets store exactly a map, whose cardinality is the sum of the bucket lengths |
| HashSpec.LookupRefines | hash_map.cpp:114-140 | find is the map's lookup up to the key equivalence |
| HashSpec.InsertRefines | hash_map.cpp:68-112 | insert is map update; an equal key keeps its stored representative |
| HashSpec.EraseRefines | hash_map.cpp:142-155 | erase is map removal |
| HashSpec.EmptyIsEmpty | hash_map.cpp:157-166 | empty buckets are the empty map, of size 0 |
| HashSpec.RunRefinesMap | hash_map.cpp:68-166 | over any operations the table is the map and its size the cardinality |
| HashSpec.LookupAfterInsert | hash_map.cpp:68-126 | after an insert an equal key finds the new value and every other key what it found before |
| HashSpec.LookupAfterErase | hash_map.cpp:114-155 | after an erase an equal key finds nothing and every other key what it found before |
| HashSpec.LookupInEmpty | hash_map.cpp:114-126 | an empty table finds nothing |
| HashMap.HashMap.constructor | hash_map.cpp:27-40 | no bucket yet |
| HashMap.HashMap.Init | hash_map.cpp:53-65 | capacity empty buckets, none for a non-positive capacity |
| HashMap.HashMap.BucketNumber | hash_map.cpp:73-77 | the bucket of the key's hash |
| HashMap.HashMap.Insert | hash_map.cpp:68-112 | -1 for a missing key or value, else the buckets of the specification, and the size field counts them |
| HashMap.HashMap.Find | hash_map.cpp:114-126 | the stored value of an equal key |
| HashMap.HashMap.HasKey | hash_map.cpp:128-140 | 1 exactly when there is an equal key |
| HashMap.HashMap.Erase | hash_map.cpp:142-155 | removes the equal key and returns 0, or -1 and nothing changed |
| HashMap.HashMap.Clear | hash_map.cpp:157-166 | all buckets empty and the size field back at 0 |
| HashMap.HashMap.GetSize | hash_map.cpp:168-171 | the cardinality of the map |
| HashMap.InsertSize | hash_map.cpp:94-96 | the size grows by one exactly when the key was absent |
| HashMap.EraseSize | hash_map.cpp:150-153 | the size shrinks by one exactly when the key was present |
| Ipv6Add.ValueIsWords | ipv6_add.c:8-17 | the address is the weighted sum of its four big-endian words |
| Ipv6Add.ByteOfValue | ipv6_add.c:8-17 | each byte is the digit of its place in base 256 |
| Ipv6Add.CarryStep | ipv6_add.c:16-38 | one iteration keeps value plus weighted carry |
| Ipv6Add.Ipv6Addition | ipv6_add.c:6-39 | the 16 bytes become those of (value + n) mod 2^128, written out as a number |
| Ipv6Add.AddInSteps | ipv6_add.c:6-39 | adding n and then m reaches the bytes of adding n + m |
| Ipv6Add.AddThenSubtract | ipv6_add.c:6-39 | adding -n undoes adding n |
| HexCodec.Str2Bytes | utils.c:47-85 | 0 and no write for odd length or small buffer, else exactly the decoded octets |
| HexCodec.StoreNibble | utils.c:65-79 | digit by digit in 8-bit arithmetic, for any character |
| HexCodec.Bytes2StrH | utils.c:88-103 | the upper-case encoding and a NUL; nothing written for no octets |
| HexCodec.IsXdigitStr | utils.c:106-125 | 1 exactly for even length and hexadecimal digits only |
| HexCodec.Str2Upper | utils.c:228-237 | upper-cases the text in place and leaves the rest of the buffer |
| CText.CasesOfCharacters | utils.c:228-237 | letter by letter: 'a'..'z' and 'A'..'Z' are exchanged and every other character stays |
| HexCodec.NibbleOfAnyCharacter | utils.c:64-79 | the value of each hexadecimal digit, letter by letter, and what any other character contributes |
| HexCodec.DecodeEncode | utils.c:47-103 | decoding an encoding gives the octets back, and an encoding is accepted text (section 8 of RFC 4648) |
| HexCodec.EncodedBufferDecodes | utils.c:47-103 | the buffer bytes2strH leaves for at least one octet decodes to the octets |
| HexCodec.EncodeDecode | utils.c:47-125 | encoding a decoding gives the upper-cased text if and only if isxdigitstr accepts the text |
| DottedQuad.JoinSplit | utils.c:160-186 | the groups contain no dot and join back to the text |
| DottedQuad.SplitJoin | utils.c:160-186 | the split at the dots is unique |
| DottedQuad.Refused | utils.c:163-184 | a fifth group, a fourth digit or any other character means the text is no dotted quad |
| DottedQuad.ScanChar | utils.c:163-185 | one character of the scan keeps the buffer equal to the groups read so far, or refuses soundly |
| DottedQuad.CheckGroups | utils.c:187-213 | accepts exactly four groups that are octets |
| DottedQuad.IsStrIp | utils.c:154-213 | 0 exactly for four dot-separated groups of one to three digits, each at most 255; else -1 |
| DottedQuad.PrintedQuadAccepted | utils.c:154-213 | the decimal printing of any four octets is accepted and splits back into them |
| DottedQuad.OctetByPlaces | utils.c:187-213 | a group is an octet exactly if it is one to three digits whose hundreds, tens and ones make at most 255 |
| DottedQuad.AcceptedIffPrinted | utils.c:154-213 | a text is accepted if and only if it is four numbers of at most 255 printed in decimal, each padded with zeros to at most three digits, joined by dots |

## Left out

- `dpdk-examples/`, `bpf/`, `libs/` and `test/`: DPDK, socket and kernel calls, third-party code and drivers.
- `x_ring/x_log.c`, `mylog.c`, `debug_print.cpp`, `linux_utils.c`: formatting, files, time and syslog.
- `utils.c` outside the hexadecimal and dotted-quad functions, and everything under `#if 0`.
- Allocation failure: every `malloc` succeeds, so the branches on its failure are absent.
- The weak memory model: the ring and the pool are sequentially consistent.
- Mixing single and multi entry points of the same side on one ring: `Config` fixes one kind a side.
- `sched_yield`, the pause counter and all printing: they do not change the state.
- `x_ring_sp_enqueue2` and `x_ring_sp_enqueue3`: the same protocol with a caller's copy function, and a wrapper that always returns 0.
- `x_ring_destroy`, `llist_destroy`, the destructors and pool destruction: no operation follows them, and the pool has no shutdown protocol.
- XRing.XRing.SpEnqueue: as a method it runs with no other call in progress; a concurrent consumer is covered by the protocol's steps.
- XRing.XRing.ScDequeue: likewise, with a concurrent producer.
- XRing.XRing.MpEnqueue: likewise, with any other thread. The spin loops, which then end at once, appear as a test that cannot hold.
- XRing.XRing.McDequeue: as for MpEnqueue.
- PoolSchedules.EveryScheduleDrains: it speaks of schedules without further calls or spurious wakeups; that such a schedule goes on as long as it can, and that a running task ends, are assumptions about the environment; a task that waits for other things than add_task is not modelled.
- RingSchedules.EveryScheduleFinishes: failed tail tests are not bounded, since a scheduler may repeat them for ever.
- RingCalls.EveryCallScheduleEnds: the same; it speaks of schedules without new calls in which claims are made while their guards hold, as they all are under the lap bound.
- The use of a ring created with count 0 or above 2^31, which has no slot; negative message sizes, list insert modes other than the two constants, HashMap use before `init` or after `init` with a non-positive capacity, which makes no bucket: outside what callers may do.
- HashMap keys and values are values rather than copied byte ranges, and `equal` and `hashCode` satisfy the equivalence laws; a second `init` is not modelled.
- Callbacks (`cmp`, `op`, `node_check`, `node_op`) are functions without side effects on the list; destroyed payloads are returned in order instead.
- The list's element size: a payload is one value of the type parameter.
- LinkList.LList.TravelDelete: the flag that breaks the loop is tested in the loop's guard.
- C `int` overflow of lengths: texts, lists and tables have fewer than 2^31 elements.
- Ctype functions other than in the C locale.
- `ip_value` in is_str_ip, which is computed and discarded, and `ipv6_subtraction`, which is empty.
