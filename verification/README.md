# MyRTOS scheduler core in Dafny

This project models the scheduler bookkeeping of MyRTOS, a small pre-emptive
RTOS for Cortex-M3 (files `Schedular.c` and `My_RTOS_FIFO.c`), and proves
properties of the model. Each handler entry runs to completion on a single
core, so each kernel operation is modelled as one sequential method on one
kernel object. The model covers:

- the ready queue, a bounded circular FIFO of task references;
- the task table and its in-place bubble sort by priority (0 is most urgent,
  the idle task is 255);
- the stack carving of task creation, including the 16-word synthetic start
  frame;
- the ready-queue rebuild;
- the next-task decision and the PendSV current/next handoff;
- the SVC service dispatch and its wrappers (activate, terminate, wait);
- the tick (countdown, then decision, then switch request);
- mutexes with a single waiter, priority inheritance and the global tracking
  array `TasksAcquiringMutex`.

Layout:

- `fifo.dfy` (module `Fifo`): `FifoBuffer`, a class over an array. `head`
  and `tail` are slot indices. A ghost sequence holds the queued elements,
  tied to the slots by the ring invariant `RingState`.
- `task_table.dfy` (module `TaskTable`) holds:
  - the `Task` record (`Task_Config`) and 32-bit words with explicit
    wrap-around (`Sub32`);
  - the start frame;
  - the countdown of one task;
  - the bubble sort as methods over the table array, proved sorted, a
    permutation and stable (`StableReorder`: per priority, the order of the
    tasks is kept).
- `ready_scan.dfy` (module `ReadyScan`): the pure specification of which
  tasks the rebuild queues (`ReadyRun`), over a view of the table, with its
  properties.
- `decision.dfy` (module `Decision`): the decision (`DecideNext`) and the
  handoff (`Handoff`) as functions on a snapshot of the kernel state, with
  the round-robin lemmas.
- `schedular.dfy` (module `Schedular`) holds:
  - the kernel object `Scheduler`: `OS_Control`, `ReadyQueue` and its
    buffer, the tracking array and `AcquiringCounter`, the task records and
    the stack words written;
  - `Mutex` (`Mutex_Config`);
  - the specification predicates for a serviced call (`Serviced`) and a
    countdown pass (`CountedDown`).

Modelling choices:

- A `Task_Config*` is a `TaskRef`, an index into the store of task records
  `tasks`. Index 0 is `MYRTOS_IdleTask`. `None` is NULL.
- `OS_Tasks[i+1]` past the last active entry is read by the rebuild as an
  explicit suspended sentinel. The table is bounded to fewer than 100
  entries, so that slot always exists.
- The SVC number is a parameter of `Dispatch`. The `svc` trap in each
  wrapper is a direct call of `Dispatch`.
- `Trigger_OS_PendSV` sets the flag `switchPending`. The handoff of
  `PendSV_Handler` is the separate method `PendSv`.
- `_estack`, `_eheap`, `MainStackSize` and the idle task's entry address are
  constructor parameters.
- The stack words the kernel writes form a map from address to word.
- The source's unsigned `_E_PSP_Task - 8`, `Ticks_Count--` and stack
  arithmetic wrap at 2^32, as `Sub32` does.

## Model

| member | source | states |
|---|---|---|
| Fifo.Advance | My_RTOS_Project/My_RTOS/My_RTOS_FIFO.c:69-72 | the slot after `i` stays inside the ring; it is the last slot's wrap to 0 |
| Fifo.Wrap | My_RTOS_Project/My_RTOS/My_RTOS_FIFO.c:69-72 | `k` slots after `head` is `head + k` or `head + k - len`, always a valid slot |
| Fifo.RingViewAt | My_RTOS_Project/My_RTOS/My_RTOS_FIFO.c:101-109 | the i-th queued element is the one in the slot `i` places after the head |
| Fifo.RingViewLength | My_RTOS_Project/My_RTOS/My_RTOS_FIFO.c:64-72 | the ring view from the head has exactly `counter` elements |
| Fifo.RingViewPush | My_RTOS_Project/My_RTOS/My_RTOS_FIFO.c:64-72 | writing the slot after the last element appends it to the view (FIFO order) |
| Fifo.RingStatePush | My_RTOS_Project/My_RTOS/My_RTOS_FIFO.c:64-72 | writing the tail slot, advancing the tail and adding one to the counter keeps the ring invariant with the item appended |
| Fifo.RingStatePop | My_RTOS_Project/My_RTOS/My_RTOS_FIFO.c:101-109 | when head differs from tail, the head slot holds the oldest element; advancing the head keeps the invariant with it removed |
| Fifo.FifoBuffer.Init | My_RTOS_Project/My_RTOS/My_RTOS_FIFO.c:23-38 | a null buffer gives `Null` and changes nothing; otherwise `NoError`, an empty queue of the given length with head = tail = 0 |
| Fifo.FifoBuffer.Enqueue | My_RTOS_Project/My_RTOS/My_RTOS_FIFO.c:53-75 | `Null` exactly for an uninitialised or zero-length buffer, `Full` exactly when head = tail and counter = length, both changing nothing; otherwise the item is written at the old tail, the counter grows by one, the tail advances with wrap, and the contents gain the item at the back |
| Fifo.FifoBuffer.Dequeue | My_RTOS_Project/My_RTOS/My_RTOS_FIFO.c:91-113 | `Null` as for enqueue; `Empty` exactly when head = tail (a full buffer included), changing nothing; otherwise the head slot's element is returned, which is the oldest element; the counter drops by one, the head advances with wrap and the contents lose their front |
| Fifo.FifoBuffer.IsFull | My_RTOS_Project/My_RTOS/My_RTOS_FIFO.c:124-134 | `Null` iff no buffer, `Full` iff counter = length, `NoError` iff counter < length |
| TaskTable.Sub32 | My_RTOS_Project/My_RTOS/Schedular.c:485 | unsigned 32-bit subtraction: the difference, plus 2^32 when it would be negative |
| TaskTable.StartFrame | My_RTOS_Project/My_RTOS/Schedular.c:450-466 | the 16 start-frame words: xPSR 0x01000000, the entry point, 0xFFFFFFFD, then 13 zeros |
| TaskTable.FrameAddressesDistinct | My_RTOS_Project/My_RTOS/Schedular.c:450-466 | the 16 frame words go to 16 different addresses |
| TaskTable.CountDownEffect | My_RTOS_Project/My_RTOS/Schedular.c:613-622 | one tick leaves a task that is not time-blocked alone; a time-blocked task loses one tick (wrapping), and is released (Waiting) exactly when its count reaches 1; priority and name never change |
| TaskTable.WaitReleasesWhenCountReachesOne | My_RTOS_Project/My_RTOS/Schedular.c:644-658 | a task waiting `n >= 2` ticks stays time-blocked with `n - k` ticks left after `k < n - 1` ticks, and is Waiting, unblocked, with count 1 after exactly `n - 1` ticks |
| TaskTable.WaitOfOneTickWraps | My_RTOS_Project/My_RTOS/Schedular.c:616-617 | a one-tick wait is not released: the count goes to 0, then wraps to 0xFFFFFFFF, and the task stays suspended |
| TaskTable.WithPriorityConcat | My_RTOS_Project/My_RTOS/Schedular.c:72-78 | the tasks of one priority in a concatenation are those of each part, in order |
| TaskTable.SwapPairIsStable | My_RTOS_Project/My_RTOS/Schedular.c:72-78 | swapping two tasks of different priorities changes no per-priority order |
| TaskTable.SwapIsStableAt | My_RTOS_Project/My_RTOS/Schedular.c:72-78 | the same swap inside any surrounding table keeps every per-priority order |
| TaskTable.SwapIsStable | My_RTOS_Project/My_RTOS/Schedular.c:72-78 | swapping neighbours of different priorities is a stable reorder |
| TaskTable.WithPriorityNonEmpty | My_RTOS_Project/My_RTOS/Schedular.c:61-81 | a priority with tasks in the per-priority view occurs in the table |
| TaskTable.WithPriorityHead | My_RTOS_Project/My_RTOS/Schedular.c:61-81 | the first task's priority has a non-empty per-priority view |
| TaskTable.HeadNoLater | My_RTOS_Project/My_RTOS/Schedular.c:61-81 | a sorted table starts with a task at least as urgent as the first task of any stable reorder of it |
| TaskTable.SortedStableSameHead | My_RTOS_Project/My_RTOS/Schedular.c:61-81 | two sorted tables that are stable reorders of each other start with the same task |
| TaskTable.StableTail | My_RTOS_Project/My_RTOS/Schedular.c:61-81 | removing a common first task keeps the reorder stable |
| TaskTable.SortedStableUnique | My_RTOS_Project/My_RTOS/Schedular.c:61-81 | a stable sort has exactly one result; sorting an already sorted table leaves it unchanged |
| TaskTable.BubbleStepOrder | My_RTOS_Project/My_RTOS/Schedular.c:72-78 | a compare-and-swap at `j` moves the latest entry so far to `j + 1` and keeps the sorted suffix and its split from the prefix |
| TaskTable.BubbleStepPermutes | My_RTOS_Project/My_RTOS/Schedular.c:72-78 | a compare-and-swap is a stable permutation and leaves the entries from `m` on alone |
| TaskTable.PassDone | My_RTOS_Project/My_RTOS/Schedular.c:70-79 | after a pass over `[0, m)` the sorted suffix starts one entry earlier |
| TaskTable.StableReorderTrans | My_RTOS_Project/My_RTOS/Schedular.c:67-80 | two stable reorders in a row are a stable reorder |
| TaskTable.BubblePassStep | My_RTOS_Project/My_RTOS/Schedular.c:70-79 | a compare-and-swap keeps every invariant of the inner loop, one position further on |
| TaskTable.CompareSwap | My_RTOS_Project/My_RTOS/Schedular.c:73-78 | the table prefix becomes the compare-and-swap step of its old contents; entries past `n` are untouched |
| TaskTable.BubblePass | My_RTOS_Project/My_RTOS/Schedular.c:70-79 | one inner pass extends the sorted, split suffix by one entry, as a stable permutation |
| TaskTable.BubbleSortTable | My_RTOS_Project/My_RTOS/Schedular.c:61-81 | for at least one entry: the table prefix ends sorted by non-decreasing priority, as a permutation of its old contents that keeps the order within each priority; later entries are untouched |
| ReadyScan.SortedTableView | My_RTOS_Project/My_RTOS/Schedular.c:105 | the scan's view of a sorted table is sorted |
| ReadyScan.FirstEligibleFromSpec | My_RTOS_Project/My_RTOS/Schedular.c:112-153 | the scan skips exactly the suspended entries before the first eligible one, then queues the run from there (nothing if there is none) |
| ReadyScan.RunFromElems | My_RTOS_Project/My_RTOS/Schedular.c:117-148 | the run from an eligible entry is the next consecutive entries, all eligible and of its priority |
| ReadyScan.RunFromSortedEnd | My_RTOS_Project/My_RTOS/Schedular.c:117-148 | on a sorted table the run is non-empty and stops exactly at the sentinel, a suspended entry or a less urgent one |
| ReadyScan.ReadyRunSpec | My_RTOS_Project/My_RTOS/Schedular.c:112-153 | on a sorted table the rebuild queues nothing iff every entry is suspended; otherwise it queues a block starting at the first eligible entry, all eligible, all of the most urgent eligible priority, ending at the sentinel, a suspended or a less urgent entry |
| ReadyScan.ScanStep | My_RTOS_Project/My_RTOS/Schedular.c:117-152 | each branch of one scan iteration (skip, queue and stop, queue and go on, stop) keeps the queued prefix plus what is still to come equal to the full result |
| ReadyScan.UnsortedTableLosesUrgentTask | My_RTOS_Project/My_RTOS/Schedular.c:145-147 | on an unsorted table the scan can queue nothing although an eligible, most urgent task exists |
| ReadyScan.SuspendedEntryHidesPeer | My_RTOS_Project/My_RTOS/Schedular.c:124-128 | an eligible peer of the same priority behind a suspended entry is not queued |
| Decision.DecideNext | My_RTOS_Project/My_RTOS/Schedular.c:170-190 | the decision keeps the snapshot well formed, the current task and the number of tasks; what it decides in each case is stated and proved by `Decision.DecideOutcome` |
| Decision.Handoff | My_RTOS_Project/My_RTOS/Schedular.c:316-320 | a pending next task becomes current and next is cleared; otherwise nothing changes; store and queue are untouched |
| Decision.DecideOutcome | My_RTOS_Project/My_RTOS/Schedular.c:174-189 | empty queue and runnable current: current runs again, is re-queued and is next. Non-empty queue: the head is next and Running, and current is re-queued (Ready) iff same priority and not suspended. Only current and next change; the queue never grows except from empty to one; no priority changes |
| Decision.RoundRobinStep | My_RTOS_Project/My_RTOS/Schedular.c:183-188 | with two runnable tasks of one priority, one running and the other alone in the queue, one decision plus handoff swaps their roles; no other task changes |
| Decision.TurnParity | My_RTOS_Project/My_RTOS/Schedular.c:316-320 | the turn alternates: even steps give the first task, odd steps the second |
| Decision.RoundRobinAlternates | My_RTOS_Project/My_RTOS/Schedular.c:170-190 | from such a state the two tasks alternate as current, tick after tick, for any number of ticks |
| Decision.RoundRobinLeavesOthers | My_RTOS_Project/My_RTOS/Schedular.c:170-190 | while they alternate, no other task record changes |
| Decision.PeerStep | My_RTOS_Project/My_RTOS/Schedular.c:181-188 | when the queue head has the current task's priority, a step makes it current and puts the current task at the back of the queue, Ready |
| Decision.RoundRobinSkewAfterSelfActivation | My_RTOS_Project/My_RTOS/Schedular.c:184-188 | when the running task is queued behind its peer, the order becomes b, a, a, repeating every three steps |
| Decision.PreemptedTaskStaysRunning | My_RTOS_Project/My_RTOS/Schedular.c:181-188 | a current task pre-empted by a task of another priority stays marked Running beside the new one |
| Schedular.ReadyRunEligible | My_RTOS_Project/My_RTOS/Schedular.c:117-144 | the rebuild queues only table entries that are not suspended |
| Schedular.MarkReadyEffect | My_RTOS_Project/My_RTOS/Schedular.c:126-144 | marking changes exactly the queued tasks, to Ready, and never priorities, names or suspended tasks |
| Schedular.MarkReadyView | My_RTOS_Project/My_RTOS/Schedular.c:126-144 | marking queued tasks Ready does not change what the scan reads of the table |
| Schedular.ReadyRunSorted | My_RTOS_Project/My_RTOS/Schedular.c:112-153 | on a sorted table: nothing queued iff every entry is suspended, and every queued task is at least as urgent as every eligible one |
| Schedular.RebuildMarksOnlyQueued | My_RTOS_Project/My_RTOS/Schedular.c:95-155 | the rebuild's effect on the store: queued tasks were eligible table entries and become Ready; all others are unchanged; no priority changes; on a sorted table the queue is empty iff all are suspended and holds the most urgent eligible priority |
| Schedular.CountedDownEffect | My_RTOS_Project/My_RTOS/Schedular.c:610-626 | after a countdown pass, per table task: a time-blocked one lost one tick; a released one is unblocked and Waiting (or Ready if a rebuild queued it); any other keeps its suspension, count and flag; priorities are kept |
| Schedular.FrameMapUpToContents | My_RTOS_Project/My_RTOS/Schedular.c:450-466 | after `k` writes the written addresses are exactly the first `k` frame addresses, each holding its frame word |
| Schedular.FrameMapContents | My_RTOS_Project/My_RTOS/Schedular.c:450-466 | the full frame: 16 addresses below the top holding xPSR, entry, 0xFFFFFFFD and zeros |
| Schedular.InheritPriority | My_RTOS_Project/My_RTOS/Schedular.c:702-706 | the owner ends with the more urgent of its own and the waiter's priority; nothing else changes |
| Schedular.Untracked | My_RTOS_Project/My_RTOS/Schedular.c:761-767 | every slot holding the owner becomes empty, every other slot is kept, and the owner no longer appears |
| Schedular.DistinctPermutation | My_RTOS_Project/My_RTOS/Schedular.c:61-81 | sorting keeps the table free of repeated tasks |
| Schedular.CountedStep | My_RTOS_Project/My_RTOS/Schedular.c:613-622 | counting down entry `i` moves the loop's expectation from `i` to `i + 1` |
| Schedular.CountingEntry | My_RTOS_Project/My_RTOS/Schedular.c:613 | the entry the loop reaches is as it was before the pass, apart from a possible Ready mark |
| Schedular.CountStepFacts | My_RTOS_Project/My_RTOS/Schedular.c:613-622 | one countdown step keeps the table sorted, tasks off the table and priorities unchanged, and tracks whether a release has happened |
| Schedular.CountStepSorted | My_RTOS_Project/My_RTOS/Schedular.c:616 | a countdown step keeps the table sorted |
| Schedular.CountPassive | My_RTOS_Project/My_RTOS/Schedular.c:613-626 | a step that releases nothing keeps the loop invariant |
| Schedular.ReleaseStep | My_RTOS_Project/My_RTOS/Schedular.c:617-622 | a release followed by the rebuild keeps the loop invariant, with a release recorded |
| Schedular.ReleaseOutcome | My_RTOS_Project/My_RTOS/Schedular.c:617-622 | after a release and rebuild the queue is what a rebuild of the new store picks, every queued task is Ready and the table stays sorted |
| Schedular.CountingDone | My_RTOS_Project/My_RTOS/Schedular.c:610-626 | at the end of the loop its invariant is the outcome `CountedDown` |
| Schedular.RebuildKeepsMarks | My_RTOS_Project/My_RTOS/Schedular.c:126-144 | a rebuild keeps every table entry an unchanged or Ready-marked copy of what it was expected to be |
| Schedular.Scheduler.CreateMainStack | My_RTOS_Project/My_RTOS/Schedular.c:359-365 | the main stack starts at _estack and ends MainStackSize bytes lower; the task locator is 8 bytes below its end |
| Schedular.Scheduler.CreateStack | My_RTOS_Project/My_RTOS/Schedular.c:433-467 | the 16 start-frame words are written below the stack top; the saved cursor ends 64 bytes below it |
| Schedular.Scheduler.CreateTask | My_RTOS_Project/My_RTOS/Schedular.c:479-513 | the bounds are written first. The stack-size error occurs iff the bottom is below _eheap, and then the table, count, locator and memory are unchanged. Otherwise: frame written, locator 8 bytes below the bottom, task appended at the end of the table as Suspend, count one higher |
| Schedular.Scheduler.PlaceTask | My_RTOS_Project/My_RTOS/Schedular.c:492-509 | locator moved, start frame written, task appended suspended |
| Schedular.Scheduler.AppendTask | My_RTOS_Project/My_RTOS/Schedular.c:505-509 | the task is written at index ActiveTasksNum, the count rises by one, the task is Suspend |
| Schedular.Scheduler.Init | My_RTOS_Project/My_RTOS/Schedular.c:394-420 | OS suspended, main stack at _estack and MainStackSize bytes below it, empty ready queue. Only the idle record changes: "idleTask", 255, 300 bytes, its stack 8 bytes below the main stack. The only possible error is the stack-size one, iff the idle stack would reach below _eheap; then the table, count and stack words are unchanged and the locator stays 8 bytes below the main stack. Otherwise the idle task is created: start frame written, cursor 64 bytes below its top, appended to the table as Suspend, locator 8 bytes below its stack |
| Schedular.Scheduler.UpdateSchedulerTable | My_RTOS_Project/My_RTOS/Schedular.c:95-155 | the table is a sorted stable permutation of the old one; the queue is exactly `ReadyRun` of the sorted table, and exactly those tasks are marked Ready |
| Schedular.Scheduler.DrainReadyQueue | My_RTOS_Project/My_RTOS/Schedular.c:108 | dequeuing until Empty leaves the queue empty |
| Schedular.Scheduler.ScanTable | My_RTOS_Project/My_RTOS/Schedular.c:112-153 | the scan queues exactly `ReadyRun` of the table and marks exactly those tasks Ready; the table and the rest of the kernel state are unchanged |
| Schedular.Scheduler.ScanEntry | My_RTOS_Project/My_RTOS/Schedular.c:114-152 | one iteration either ends the scan with the full result queued or keeps the scan invariant at the next entry |
| Schedular.Scheduler.ScanDecision | My_RTOS_Project/My_RTOS/Schedular.c:117-148 | an entry is queued iff it is eligible and the next entry is the sentinel, suspended or not more urgent; the scan goes on iff it is suspended or the next entry is eligible with the same priority |
| Schedular.Scheduler.EnqueueIf | My_RTOS_Project/My_RTOS/Schedular.c:126-144 | when asked, the task is appended to the queue and marked Ready; the store stays the marking of the queue |
| Schedular.Scheduler.DecideWhatNextTask | My_RTOS_Project/My_RTOS/Schedular.c:170-190 | the kernel's snapshot becomes `DecideNext` of the old one; nothing else changes |
| Schedular.Scheduler.RepeatCurrent | My_RTOS_Project/My_RTOS/Schedular.c:174-179 | current becomes Running, is the only queued task and is next |
| Schedular.Scheduler.TakeNext | My_RTOS_Project/My_RTOS/Schedular.c:181 | the queue head, if any, is removed and becomes next; otherwise next is kept |
| Schedular.Scheduler.RunNext | My_RTOS_Project/My_RTOS/Schedular.c:182-188 | next becomes Running; current is queued again and Ready iff same priority and not suspended |
| Schedular.Scheduler.Dispatch | My_RTOS_Project/My_RTOS/Schedular.c:215-260 | services 0-2 give the `Serviced` outcome from the old state; other numbers change nothing |
| Schedular.Scheduler.RebuildAndDecide | My_RTOS_Project/My_RTOS/Schedular.c:217-237 | the rebuild, then, while the OS runs a task other than "idleTask", the decision and a switch request |
| Schedular.Scheduler.DecideAndSwitch | My_RTOS_Project/My_RTOS/Schedular.c:229-232 | the snapshot becomes `DecideNext` of the old one and a switch is pending; the table is kept |
| Schedular.Scheduler.PendSv | My_RTOS_Project/My_RTOS/Schedular.c:316-320 | the snapshot becomes `Handoff` of the old one and the pending switch is cleared |
| Schedular.Scheduler.ActivateTask | My_RTOS_Project/My_RTOS/Schedular.c:560-572 | the outcome is the Activate service applied to the store with the task Waiting |
| Schedular.Scheduler.TerminateTask | My_RTOS_Project/My_RTOS/Schedular.c:584-593 | the outcome is the Terminate service applied to the store with the task Suspend |
| Schedular.Scheduler.TaskWait | My_RTOS_Project/My_RTOS/Schedular.c:644-658 | the outcome is the Terminate service applied to the store with the task time-blocked for `ticks` ticks and suspended |
| Schedular.Scheduler.UpdateTasksWaitingTime | My_RTOS_Project/My_RTOS/Schedular.c:605-630 | on a sorted table: the table is kept, the pass's outcome is `CountedDown` from the old store and queue, and the table stays sorted |
| Schedular.Scheduler.CountEntry | My_RTOS_Project/My_RTOS/Schedular.c:611-626 | one loop iteration keeps the countdown invariant one entry further on |
| Schedular.Scheduler.CountBlocked | My_RTOS_Project/My_RTOS/Schedular.c:613-624 | the countdown of a time-blocked entry, with or without release, keeps the invariant |
| Schedular.Scheduler.ReleaseEntry | My_RTOS_Project/My_RTOS/Schedular.c:617-622 | a release and its rebuild keep the invariant, with a release recorded |
| Schedular.Scheduler.RunWaitingTimeService | My_RTOS_Project/My_RTOS/Schedular.c:239-241 | on a sorted table, the TaskWaitingTime service keeps the table and rebuilds the queue as `ReadyRun` of the store |
| Schedular.Scheduler.Tick | My_RTOS_Project/My_RTOS/CortexMxOS_Porting.c:196-204 | the countdown outcome, then `DecideNext` from the counted store and queue, then a pending switch; current and table unchanged |
| Schedular.Scheduler.StartOs | My_RTOS_Project/My_RTOS/Schedular.c:789-796 | the OS runs, the idle task is current, and the Activate service is applied with the idle task Waiting |
| Schedular.Scheduler.IsTracked | My_RTOS_Project/My_RTOS/Schedular.c:691-697 | true iff the task appears in the tracking array |
| Schedular.Scheduler.Untrack | My_RTOS_Project/My_RTOS/Schedular.c:761-767 | the tracking array becomes `Untracked` of the old one |
| Schedular.Scheduler.AcquireMutex | My_RTOS_Project/My_RTOS/Schedular.c:677-738 | Free: the task owns it, its priority is saved, and it is tracked unless already tracked. Held with no waiter by a tracked task: deadlock error, nothing changed. Held with no waiter otherwise: it waits suspended, the owner inherits the priority, and the Terminate service runs. Held with a waiter: maximum-number error, nothing changed |
| Schedular.Scheduler.TakeMutex | My_RTOS_Project/My_RTOS/Schedular.c:719-734 | the free-mutex outcome above |
| Schedular.Scheduler.WaitForMutex | My_RTOS_Project/My_RTOS/Schedular.c:699-709 | the waiting outcome above |
| Schedular.Scheduler.ReleaseMutex | My_RTOS_Project/My_RTOS/Schedular.c:749-779 | Held: the owner's saved priority is restored, its tracking slots are cleared, the waiter owns the mutex with its priority saved, and the Activate service runs with it Waiting. Free: nothing changes. Always `NO_ERROR` |
| Schedular.Scheduler.HandOverMutex | My_RTOS_Project/My_RTOS/Schedular.c:753-775 | the held-mutex outcome above |

## Left out

- Register save and restore in `PendSV_Handler`, the SVC number decoding
  from the stacked PC, the `svc` instructions, the idle loop, fault
  handlers, NVIC and SysTick configuration, and the PSP/privilege switch
  and idle-task call at the end of `MYRTOS_START_OS`: these are hardware
  mechanics with no kernel state to model. `CortexMxOS_Porting.c` is not
  part of this model beyond the tick ordering.
- Interrupt priorities and concurrency: every handler entry runs to
  completion. A release inside the tick's countdown runs its service at
  once, before the loop continues.
- The `SystTickIndication` toggle of the tick.
- The mutex cases of `OS_SVC_Services` are empty in the source. They are
  not reached through `Dispatch`.
- Schedular.Scheduler.Init: the source adds up the error codes. Here they
  are listed in order, so a caller sees which steps failed. It carries
  CreateTask's requirements for the idle task (room in the table, idle task
  not yet registered), since it runs once, before any task is created.
- Schedular.Scheduler.CreateTask: requires fewer than 99 active tasks, a
  task not already in the table, and a declared record. The source writes
  `OS_Tasks[ActiveTasksNum]` with no bound. It also accepts a task that is
  already registered: it carves a second stack and appends a duplicate
  table entry, whose countdown would then run twice per tick. Each task is
  created once, and the model keeps the table free of repeats (`Valid`), so
  re-creation is not modelled.
- Schedular.Scheduler.ReleaseMutex: requires a waiter when the mutex is
  held, because the source dereferences the waiter unconditionally.
- Schedular.Scheduler.AcquireMutex: requires a free tracking slot when a
  new task is tracked. `AcquiringCounter` is never decremented, so the
  source's eleventh distinct acquisition writes past the array.
- Schedular.Scheduler.UpdateTasksWaitingTime: requires the table to be
  priority-sorted on entry, as every rebuild leaves it. Otherwise a release
  inside the loop could re-sort the table under the loop.
- Schedular.Scheduler.Tick: the same requirement as
  UpdateTasksWaitingTime.
- Decision.DecideNext: with an empty queue, a suspended current task and
  no next task, the source dereferences a NULL next task. Here that case
  leaves the state unchanged.
- TaskTable.BubbleSortTable: requires at least one entry. The source's
  unsigned `n - 1` underflows on an empty table, and the kernel always
  holds the idle task.
- Schedular.Scheduler.DeclareTask has no counterpart call in the source.
  It stands for the application's static `Task_Config` definitions.
- The owner recorded by `ReleaseMutex` is not added to the tracking array,
  as in the source. The model reproduces this without a separate lemma.

Source behaviour the model reproduces:

- The decision does not keep "at most one task is Running"
  (`PreemptedTaskStaysRunning`).
- Round robin becomes 2:1 after a task activates its own peer
  (`RoundRobinSkewAfterSelfActivation`).
- A suspended entry hides later peers from the rebuild
  (`SuspendedEntryHidesPeer`).
- A full FIFO dequeues as Empty (`Fifo.FifoBuffer.Dequeue`).
- A one-tick wait wraps instead of releasing (`WaitOfOneTickWraps`).
- Stack bounds wrap at 2^32 (`Sub32`).
