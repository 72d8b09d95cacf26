# TaskQueue: a verified model

This project models the task queue of BepuUtilities (`BepuUtilities/TaskQueue.cs`).
The queue is a lock-light, multi-producer, multi-consumer ring buffer of tasks. A
task is a function pointer, a context pointer and a task id. A producer reserves
a range of logical indices (the allocation frontier) and copies its batch into
the ring. It then publishes the range by moving the write frontier. A consumer
claims the oldest published task by advancing the dequeue frontier. A task with
a null function is the stop command. It is never consumed, so every worker sees
it.

Beside the ring sits a table of continuations. A continuation is a reusable
record that counts the unfinished tasks of one job. Callers hold it through a
versioned `ContinuationHandle`. The queue's own completion wrapper,
`RunAndMarkAsComplete`, runs a wrapped user task and then decrements the job's
counter. The decrement that reaches zero runs the job's callback, if the job has
one, and returns the slot to the index pool. `For` builds a parallel loop from
these parts. It submits the iterations after the first as one job, runs the
first iteration itself, and then helps run queued tasks until the job is
complete.

The model is sequential. Every lock-free or locked step of the original is one
method of the class `TaskQueues.TaskQueue`, whose fields are the original's
fields. A compare-and-swap always succeeds. A spinlock is a boolean field that
the method checks, takes and releases. What a user function does is not
modelled: running a task appends an event to a ghost log. The properties about
running tasks are stated over that log: what ran, and how often. The modules
are:

- `Bits`: powers of two, `x & mask` as `x % 2^k`, the runtime's
  `RoundUpToPowerOf2`, and 32-bit wrap-around.
- `Handles`: the handle's two 32-bit fields and its encoding.
- `Tasks`: tasks, contexts and log events as values, and the counting
  functions used by the conservation properties.
- `Continuations`: the continuation table as a sequence of records, with its
  lookup, completion test and updates.
- `Accounting`: the bookkeeping that ties queued completion tasks to table
  slots.
- `Ring`: ring index arithmetic and the window of logical indices.
- `TaskQueues`: the class itself.

`Valid()` is the object invariant. It holds the ring's power-of-two shape, the
frontier order, the table's well-formed records, and the continuation count as
a function of the completions since the last reset. The constructor
establishes it, and every operation on the queue requires it and keeps it.

The original checks some caller obligations only with debug assertions, which
a release build drops. These become `requires` clauses:
- a non-empty batch (TaskQueue.cs:421);
- no enqueue after a stop (TaskQueue.cs:422);
- free locks on reset (TaskQueue.cs:280, 285);
- equal lengths when wrapping (TaskQueue.cs:594);
- no stop met while enqueuing a stop or helping a loop (TaskQueue.cs:563, 818).

The remaining debug assertions are handled differently:
- Some duplicate a runtime check that follows them: those of the lookup
  (TaskQueue.cs:164-165, 169) and of the completion test (TaskQueue.cs:400-401).
  They are modelled by that runtime check alone, so an uninitialized,
  out-of-range or stale handle gets null or "not complete" rather than a
  precondition failure.
- The handle getters' initialization checks (TaskQueue.cs:95, 104) are not
  modelled: `Index()` and `Version()` are total.
- The count bound at TaskQueue.cs:663 is not stated. Continuations.CountGuardAsWritten
  shows that it holds through the first 2^31 completions. One completion
  later the count is the int32 maximum, so it fails for every table of fewer
  than 2^31 - 1 records.

## Model

| member | source | states |
|---|---|---|
| Bits.RoundUpToPowerOf2 | BepuUtilities/TaskQueue.cs:257 | The requested capacity rounds up to the least power of two at or above it, and to 0 for 0 or for values above 2^31, which wrap. |
| Bits.RingCapacity | BepuUtilities/TaskQueue.cs:257 | The ring capacity the constructor computes from an int32 request. A request in [1, 2^30] gives a power of two at or above it and below twice it. A request of 0, or a negative one other than the int32 minimum, gives 0. The int32 minimum and every request above 2^30 give the int32 minimum, since they round to 2^31. |
| TaskQueues.TaskQueue.constructor | BepuUtilities/TaskQueue.cs:255-270 | The ring's length is the capacity the original computes from the request (Bits.RingCapacity). The table has the requested size with every record cleared, and the index pool holds all its indices. As after Reset, the three frontiers are 0, nothing is queued, no stop is written, the count and the completions are 0, and both locks are free. |
| TaskQueues.TaskQueue.Reset | BepuUtilities/TaskQueue.cs:275-286 | All three frontiers return to 0, so the queue is empty. Every continuation record is cleared, and the count and the completions are 0. The index pool is left as it is, as in the original. |
| TaskQueues.TaskQueue.Slot | BepuUtilities/TaskQueue.cs:366 | The masked index `x & taskMask` is the slot `x mod capacity`. |
| TaskQueues.TaskQueue.TryDequeue | BepuUtilities/TaskQueue.cs:342-378 | Empty exactly when nothing is visible, and Stop exactly when the oldest visible task is the stop command; both leave the dequeue frontier alone. Success returns the oldest task, advances the frontier by one and leaves the rest in FIFO order. |
| TaskQueues.TaskQueue.TryDequeueAndRun | BepuUtilities/TaskQueue.cs:385-391 | Behaves as one dequeue, and on success runs the task: the log gains exactly the call the task performs. Failure changes nothing. Every task either ran or is still queued, and the accounting of completion tasks is kept. |
| TaskQueues.TaskQueue.Invoke | BepuUtilities/TaskQueue.cs:387-389 | A user function is only logged. The completion wrapper runs as RunAndMarkAsComplete. Either way the log gains one call, the one the task performs, and slot versions do not change. |
| TaskQueues.TaskQueue.CopyBlock | BepuUtilities/TaskQueue.cs:436-446 | The block copy writes the destination range from the source and leaves every other slot unchanged. |
| TaskQueues.TaskQueue.WriteBatch | BepuUtilities/TaskQueue.cs:431-447 | With the corrected one-block test and the masked destination, the copy puts task i in slot (start + i) mod capacity, and every slot outside the batch's range keeps its task. The second block's start index lies inside the batch. |
| TaskQueues.TaskQueue.TryEnqueueTasksUnsafelyInternal | BepuUtilities/TaskQueue.cs:419-455 | Full exactly when the batch would overrun unconsumed tasks, and then neither the frontier nor any slot changes. Success moves the allocation frontier by the batch length, puts task i in slot (start + i) & mask, leaves the other slots unchanged and keeps the frontier invariant. |
| TaskQueues.TaskQueue.TryEnqueueTasksUnsafely | BepuUtilities/TaskQueue.cs:462-470 | Full (nothing changes) exactly when there is no room. On success the write frontier is published at the allocation frontier and the visible queue is the old one followed by the batch. |
| TaskQueues.TaskQueue.TryEnqueueTasks | BepuUtilities/TaskQueue.cs:477-504 | An empty batch succeeds at once. A held lock gives Contested, and no room gives Full; both change nothing. Success writes the batch with the slot-by-slot placement and appends it to the visible queue. The lock ends as it began. |
| TaskQueues.TaskQueue.TryEnqueueOrRunFirst | BepuUtilities/TaskQueue.cs:517-528 | One round of the enqueue retry loop. Either the whole rest is queued and nothing runs, or the ring is full and the first task runs inline. Every task either ran or is still outstanding, and the accounting is kept. |
| TaskQueues.TaskQueue.EnqueueTasks | BepuUtilities/TaskQueue.cs:513-534 | On return the visible queue is the old one followed by a suffix of the batch. The leading tasks that the retry loop ran inline are in the log, once each. No slot's version changes, the completion accounting is kept, and whether a stop was written last is unchanged. An empty batch is accepted after a stop. |
| TaskQueues.TaskQueue.TryEnqueueStop | BepuUtilities/TaskQueue.cs:539-544 | Contested when locked. Full exactly when the ring is full. Success appends the stop command, after which no further enqueue is allowed. |
| TaskQueues.TaskQueue.TryEnqueueStopUnsafely | BepuUtilities/TaskQueue.cs:577-582 | Full exactly when the ring is full, and then nothing changes. Success appends the stop command without the lock. |
| TaskQueues.TaskQueue.TryEnqueueStopOrRunOne | BepuUtilities/TaskQueue.cs:558-564 | One round of the stop retry loop. Either the stop command is appended and nothing runs, or the oldest task is dequeued and run. That task is never a stop, since none is queued. |
| TaskQueues.TaskQueue.EnqueueStop | BepuUtilities/TaskQueue.cs:552-570 | On return the queue is a suffix of the old queue followed by the stop command. Every task that was dropped from the front ran. |
| TaskQueues.TaskQueue.RunAndMarkAsComplete | BepuUtilities/TaskQueue.cs:610-642 | Runs the wrapped call, then decrements the counter of the handle's slot, keeping its version. Only the decrement that reaches 0 logs the callback (when set), returns the slot to the pool, decrements the count with 32-bit wrap and counts one completion. |
| TaskQueues.TaskQueue.TryAllocateContinuation | BepuUtilities/TaskQueue.cs:654-684 | Contested exactly when locked. Full exactly when the count has reached the capacity. Both return the null handle and change nothing. Success takes a free index, installs the callback, id and task count, bumps the version with 32-bit wrap and returns the matching handle. For a version that has not wrapped, the new handle is live and its job is complete only if it has no task. Because the count is never incremented, a non-empty table never reports Full through the first 2^31 completions since a reset, and always does, when uncontested, one completion later. |
| TaskQueues.TaskQueue.AllocateContinuation | BepuUtilities/TaskQueue.cs:696-713 | When the table has room, allocation succeeds with the same effect as a successful TryAllocateContinuation. |
| TaskQueues.TaskQueue.CreateCompletionWrappedTasks | BepuUtilities/TaskQueue.cs:591-608 | The i-th wrapped task runs the i-th task's function and context under its task id, through the completion wrapper that reports to the continuation. |
| TaskQueues.BuildForTasks | BepuUtilities/TaskQueue.cs:727-732 | The loop's tasks are one call of the function per index of [start, start + count). |
| TaskQueues.BuildWrappedForTasks | BepuUtilities/TaskQueue.cs:775-783 | The parallel loop's tasks are the loop's tasks, each wrapped to report to the handle. |
| TaskQueues.TaskQueue.TryEnqueueForUnsafely | BepuUtilities/TaskQueue.cs:725-732 | Either the whole loop is queued, one pending call per index of [start, end), or the result is Full and nothing changes. |
| TaskQueues.TaskQueue.EnqueueFor | BepuUtilities/TaskQueue.cs:746-752 | The queue becomes the old one followed by a suffix of the loop's tasks. The dropped prefix ran inline. Every call, of the loop or not, either ran or is pending: one more pending call per index of [start, end), and no other change. An empty range is accepted after a stop. |
| TaskQueues.TaskQueue.AllocateLoopJob | BepuUtilities/TaskQueue.cs:774-783 | The job's continuation is allocated with the iteration count, and its tasks are the wrapped loop. The job is accounted for behind the queue, and no older task reports to its slot. |
| TaskQueues.TaskQueue.SubmitLoopJob | BepuUtilities/TaskQueue.cs:771-802 | After submission the job is queued behind the old tasks with a live handle whose slot is owed nothing else. Each iteration after the first either ran inline or is pending. |
| TaskQueues.TaskQueue.HelpOnce | BepuUtilities/TaskQueue.cs:812-829 | While the job is incomplete, a task that reports to it is still queued and the oldest task is not a stop, so one dequeue succeeds and runs one task. |
| TaskQueues.TaskQueue.DrainUntilComplete | BepuUtilities/TaskQueue.cs:810-830 | Helping ends with the job complete, and keeps every task either ran or still queued. |
| TaskQueues.TaskQueue.HelpUntilComplete | BepuUtilities/TaskQueue.cs:807-831 | Once the job is complete, what is still queued is a suffix of what was queued before the loop. Nothing was lost meanwhile: every task ran or is still queued. |
| TaskQueues.TaskQueue.For | BepuUtilities/TaskQueue.cs:765-832 | An empty range changes nothing, not even the log. A single iteration only runs its index: the log gains that one call and the queue, locks, ring and continuation table stay as they were. Two or more iterations go to ForSeveral. In every case each index of [start, end) either ran or is pending, and so does every task queued before. What stays queued is a suffix of the old queue, and a queue that was between operations and stop-free stays so. |
| TaskQueues.TaskQueue.ForSeveral | BepuUtilities/TaskQueue.cs:771-831 | For a range of two or more iterations, on a queue between operations and stop-free, with a free slot whose version cannot wrap: the queue stays between operations and stop-free, what stays queued is a suffix of the old queue, and every call, of the loop or queued before, either ran or is still pending. Because none of the loop's own tasks is in that suffix, every index of [start, end) ran. |
| Tasks.LoopConserves | BepuUtilities/TaskQueue.cs:771-831 | The loop's three phases combine: submitting (indices after the first pending), the first index run inline, and helping (nothing lost). Together, each index of the range either ran or is pending. |
| Tasks.LoopRunsEachIndexOnce | BepuUtilities/TaskQueue.cs:765-832 | When nothing of the loop's function and context was queued before, the loop runs every index of [start, end) exactly once and no other index. |
| Tasks.ForTasks | BepuUtilities/TaskQueue.cs:729-732 | The loop's task list has one task per index, in order, each calling the user function. |
| Tasks.WrapAll | BepuUtilities/TaskQueue.cs:597-606 | Wrapping keeps the length, and element j is task j wrapped to report to the handle. |
| Tasks.WrapTask | BepuUtilities/TaskQueue.cs:597-606 | A wrapped task is a completion task with its handle, and it calls the same function and context under the same id as the task it wraps. |
| Tasks.WrapAllPending | BepuUtilities/TaskQueue.cs:597-606 | Wrapping a batch does not change which calls it will make. |
| Tasks.WrapAllRefs | BepuUtilities/TaskQueue.cs:597-606 | A wrapped batch of n tasks reports n times to the handle's slot and never to any other slot. |
| Tasks.ForTasksPending | BepuUtilities/TaskQueue.cs:729-732 | The loop's tasks contain exactly one call per index of the range. |
| Tasks.JobDrained | BepuUtilities/TaskQueue.cs:811-830 | Once no queued task reports to the job's slot, nothing of the job is left: what is queued is a suffix of the tasks queued before it. |
| Tasks.RunConserves | BepuUtilities/TaskQueue.cs:387-389 | Taking a task out of the outstanding sequence and logging its call keeps "ran plus pending" equal for every call. |
| Accounting.JobAppend | BepuUtilities/TaskQueue.cs:777-801 | Queuing a job behind tasks that do not report to its freshly allocated slot keeps the accounting. The slot is then owed nothing beyond the queued job, and no other slot's slack changes. |
| Accounting.CompletionRunPreserves | BepuUtilities/TaskQueue.cs:613-637 | Running an accounted completion task keeps every other completion task's handle live and its slot covered. |
| Accounting.PlainRunPreserves | BepuUtilities/TaskQueue.cs:387-389 | Running a user task leaves the accounting of the others intact. |
| Accounting.AllocationPreserves | BepuUtilities/TaskQueue.cs:669-677 | Allocating a free slot keeps the accounting of the queued tasks, none of which reports to that slot. |
| Accounting.PlainTasksAppend | BepuUtilities/TaskQueue.cs:513-534 | Queuing plain tasks keeps the accounting and every slot's slack. |
| Handles.New | BepuUtilities/TaskQueue.cs:85-89 | The encoded handle is initialized and gives back its index. Its version is the int32 version modulo 2^31, and that is the version itself when non-negative. |
| Handles.NewIsInjective | BepuUtilities/TaskQueue.cs:85-106 | Distinct (index, version) pairs with versions below 2^31 give distinct handles. |
| Handles.ContinuationHandle.Version | BepuUtilities/TaskQueue.cs:100-107 | The decoded version is the encoded version without its initialized bit. |
| Handles.ContinuationHandle.Equals | BepuUtilities/TaskQueue.cs:119 | Field-by-field equality is value equality. |
| Handles.Null | BepuUtilities/TaskQueue.cs:112-117 | The default handle is not initialized. |
| Handles.WithInitializedBit | BepuUtilities/TaskQueue.cs:88 | Setting the top bit marks the handle initialized and keeps the low 31 bits. |
| Continuations.GetContinuation | BepuUtilities/TaskQueue.cs:162-173 | The lookup yields the slot exactly when the handle is initialized, in range and carries the slot's version. Otherwise it yields null, so a stale handle never aliases a new job. |
| Continuations.IsComplete | BepuUtilities/TaskQueue.cs:398-407 | For an initialized, in-range handle, complete exactly when the slot's version has moved past the handle's or no task remains. Otherwise the handle is not complete. |
| Continuations.Allocated | BepuUtilities/TaskQueue.cs:670-676 | The allocated record carries the callback, context and id, the version plus one (wrapping at 32 bits) and the task count. |
| Continuations.Decremented | BepuUtilities/TaskQueue.cs:617 | One completion decrements the counter (wrapping at 32 bits) and keeps the version and payload. |
| Continuations.AllocatedHandleIsLive | BepuUtilities/TaskQueue.cs:669-677 | A freshly allocated handle reaches its slot, and its job is complete only when it has no task. |
| Continuations.StaleHandleIsDetected | BepuUtilities/TaskQueue.cs:162-173 | After a slot is reused, the previous job's handle fails lookup and reads as complete: the ABA case is detected. |
| Continuations.WrappedVersionGivesDeadHandle | BepuUtilities/TaskQueue.cs:671-677 | A slot whose version is the int32 maximum wraps to the minimum on reuse. The handle allocation returns is then dead from the start. Its lookup yields null, which the first of its completion tasks to run dereferences (TaskQueue.cs:616-617). Its job never reads as complete while tasks remain. |
| Continuations.CompleteAfterExactlyCount | BepuUtilities/TaskQueue.cs:617-618 | A job of n tasks becomes complete on exactly its n-th reported completion and not before, and its handle stays valid throughout. |
| Continuations.CountAfterCompletions | BepuUtilities/TaskQueue.cs:637 | The continuation count stays a 32-bit value under repeated decrements. |
| Continuations.CountGuardAsWritten | BepuUtilities/TaskQueue.cs:664-668 | Because allocation never increments the count, the Full guard cannot fire through the first 2^31 completions. One completion later the count has wrapped to the int32 maximum, and every table reads as Full. |
| Ring.UnmaskedCopyDestination | BepuUtilities/TaskQueue.cs:437 | The copy destination as written agrees with the slot the dequeue reads exactly while the start index is within the ring's first lap. |
| Bits.TrailingZeroCount | BepuUtilities/TaskQueue.cs:267 | The shift of a power-of-two ring is its exponent: 2 to the shift is the capacity. |
| Handles.AsUInt32 | BepuUtilities/TaskQueue.cs:88 | The `(uint)` cast of an int32 version is the version modulo 2^32, which keeps it modulo 2^31, so the low 31 bits carry the version. |
| TaskQueues.CompletionEvents | BepuUtilities/TaskQueue.cs:618-624 | A completion logs at most one Completed event. It logs one exactly when the decrement reaches 0 and a callback is set, and that event carries the callback, the user id and the callback context. |
| Tasks.PlainLoopPending | BepuUtilities/TaskQueue.cs:746-752 | Queuing a plain loop adds one pending call of (function, context) for each index of the range, and nothing else. |
| Tasks.OnlyIterationRan | BepuUtilities/TaskQueue.cs:768-805 | A one-iteration loop that runs its only index inline and queues nothing meets the ran-or-pending property over its range, with the queue unchanged. |
| Ring.CopyDestination | BepuUtilities/TaskQueue.cs:432-437 | The masked start index is a slot of the ring: the logical index modulo the capacity. |
| Ring.UnmaskedDestinationLeavesBuffer | BepuUtilities/TaskQueue.cs:437 | Once the ring has gone round once, the unmasked copy destination lies outside the buffer, while the dequeue reads slot 0. |
| Ring.SingleRegion | BepuUtilities/TaskQueue.cs:434 | The source takes the one-block branch exactly when the batch ends before the ring's last slot. A batch that ends on the last slot takes the two-block branch, although it fits in one block. |
| Ring.SecondBlockPastBatch | BepuUtilities/TaskQueue.cs:434-444 | The two-block branch as written is taken with its second-block index at or past the batch's end exactly when the batch ends on the ring's last slot. The index is then the batch's length, one past its last task. |
| Ring.SingleRegionCorrected | BepuUtilities/TaskQueue.cs:434 | The corrected test, which also takes the one-block branch when the wrapped end slot is 0, holds exactly when the batch ends within the ring. |
| Ring.TwoRegionPlacement | BepuUtilities/TaskQueue.cs:441-446 | The two-block copy puts task i in slot (start + i) mod capacity and leaves the other slots untouched. |
| Ring.WindowAfterWrite | BepuUtilities/TaskQueue.cs:419-470 | Writing a batch right after the visible window, within the ring's room, appends the batch to the window. |
| Ring.WindowAdvance | BepuUtilities/TaskQueue.cs:366-376 | Advancing the dequeue frontier drops the oldest task of the window. |

## Left out

- Concurrency is not modelled. Compare-and-swap retries, spin waits, memory barriers and interleavings are absent: every step runs alone and every compare-and-swap succeeds. Contested results arise only from a lock flag that is already set.
- What a user function or a completion callback does is not modelled. Each is an identifier, and running it appends an event to the ghost log.
- TaskQueues.TaskQueue.AllocateContinuation: the original retries while the table is full, running queued tasks in between. The model requires room, so the first attempt succeeds and the retry loop is not modelled.
- TaskQueues.TaskQueue.TryAllocateContinuation: when the count guard lets an attempt through, the model requires a free index in the pool. The original's pool would hand out an index past the table, and the model does not follow it there.
- TaskQueues.TaskQueue.For: the model requires `end - start` to be an int32 (the original's subtraction wraps). For two or more iterations it also requires every free slot's version to lie in [0, INT32_MAX), because allocation takes an arbitrary free index. A free slot at INT32_MAX would give the job a handle that is dead from the start (see Continuations.WrappedVersionGivesDeadHandle). The first wrapped task to run would then dereference the null lookup result (TaskQueue.cs:616-617), a fault the model does not represent. A negative version is one that has already wrapped.
- TaskQueues.TaskQueue.constructor: the model requires a capacity in [1, 2^30], which excludes two groups of requests (see Bits.RingCapacity). A request of 0, or a negative one other than the int32 minimum, gives the original a zero-length ring: every non-empty enqueue on it reports Full and every dequeue Empty. The model's ring invariant needs at least one slot, so that queue is not covered. The int32 minimum and requests above 2^30 give a negative capacity, and taking a negative count from the buffer pool is not part of this model.
- TaskQueues.TaskQueue.TryEnqueueTasksUnsafelyInternal: for a batch that ends on the ring's last slot, the original throws at TaskQueue.cs:444 after moving the allocation frontier (TaskQueue.cs:430). The model follows the corrected copy of WriteBatch instead and reports Success (see "## Findings").
- TaskQueues.TaskQueue.TryEnqueueTasksUnsafely: for a batch that ends on the ring's last slot, the original throws at TaskQueue.cs:444 and never publishes the write frontier. The model reports Success with the batch written and published, as the corrected copy gives.
- TaskQueues.TaskQueue.TryEnqueueTasks: for a batch that ends on the ring's last slot, the original throws at TaskQueue.cs:444, leaving the allocation frontier moved, the write frontier behind it and the lock released by `finally`. The model reports Success, as the corrected copy gives.
- TaskQueues.TaskQueue.TryEnqueueStop: a stop whose slot is the ring's last is a one-task batch ending there, and the original throws at TaskQueue.cs:444. The model appends the stop and reports Success, as the corrected copy gives.
- TaskQueues.TaskQueue.TryEnqueueStopUnsafely: as for TryEnqueueStop, a stop written to the ring's last slot makes the original throw at TaskQueue.cs:444, and the model reports Success. The operations built on these enqueues (EnqueueTasks, EnqueueStop, EnqueueFor, TryEnqueueForUnsafely, For) inherit the same correction.
- TaskQueues.TaskQueue.For: the original's Stop branch in the helping loop is not modelled as a return. The model requires the queue to be stop-free and proves that the branch cannot be taken.
- TaskQueues.TaskQueue.ForSeveral and TaskQueues.TaskQueue.SubmitLoopJob: the original repeats the retry loop of EnqueueTasks inline. The model calls EnqueueTasks.
- TaskQueues.TaskQueue.EnqueueFor: the original's stackalloc of a negative count throws, and the model does not represent that exception. It requires `start <= end`.
- TaskQueues.TaskQueue.TryEnqueueForUnsafely: the model requires `start < end`, which excludes two inputs. For `end < start` the original's stackalloc of a negative count throws (TaskQueue.cs:728). For `start == end` it passes an empty batch, which the debug assertion at TaskQueue.cs:421 rejects.
- TaskQueues.TaskQueue.EnqueueTasks: the model requires that no task of the batch is a stop command. When the ring stays full, the original runs tasks of the batch inline, and calling the null function of a stop would fault (TaskQueue.cs:523-524). A batch holding a stop that fits at once, which the original would enqueue, is therefore not covered. The same requirement applies to TaskQueues.TaskQueue.TryEnqueueOrRunFirst.
- TaskQueues.TaskQueue.TryDequeueAndRun, TaskQueues.TaskQueue.EnqueueTasks, TaskQueues.TaskQueue.TryEnqueueOrRunFirst, TaskQueues.TaskQueue.TryEnqueueStopOrRunOne, TaskQueues.TaskQueue.EnqueueStop and TaskQueues.TaskQueue.EnqueueFor require `Accounted`. Every queued completion task must carry a live handle, and every allocated slot's counter must be at least the number of queued tasks that report to it. Queues outside this protocol are not covered. In one, a completion task holds a stale handle, and the original dereferences its null lookup result (TaskQueue.cs:616-617). In another, a continuation has more queued tasks than its count, and the original frees the slot while tasks still report to it.
- TaskQueues.TaskQueue.For: only a range of two or more iterations requires the queue between operations (both locks free, no stop queued, completion tasks accounted for) and a free continuation slot. A shorter range touches nothing but the log.
- The 64-bit frontiers of the original are unbounded naturals here. Overflow past 2^63 is not modelled.
- `Dispose`, the buffer pool and `IdPool` internals are not modelled. The index pool is a set of free indices, and allocation takes an arbitrary member of it.
- `TaskCapacity`, `ContinuationCapacity`, `UnsafeTaskCount`, `TaskCount` and `ContinuationCount` are plain reads of fields or lengths, and are not modelled as separate members.
- `ContinuationHandle.GetHashCode` and the `==`/`!=` operators on handles are not modelled, except for `Equals`.
- `TaskQueue.GetContinuation` (TaskQueue.cs:414-417) forwards to the table's lookup, which is modelled as Continuations.GetContinuation.
- A wrapped task's inner function is always a user function. Wrapping a completion task again is not modelled.
- The optional parameters of AllocateContinuation (user id 0, no callback) are passed explicitly.
- A task's function and context pointers are abstract identifiers. Pointer arithmetic and the unmanaged memory they refer to are not modelled.

## Findings

| source | as written | input that shows it | evidently intended | confidence | as-written member | corrected member |
|---|---|---|---|---|---|---|
| BepuUtilities/TaskQueue.cs:437,446 | The first block copy of an enqueue writes to `tasks.Memory + taskStartIndex`, the unmasked logical index. | A ring of capacity n that has gone round once: the next enqueue starts at logical index n and writes at offset n, past the buffer, while the dequeue of index n reads slot 0. | Copy to `tasks.Memory + wrappedInclusiveStartIndex`, the masked slot that the dequeue reads. | not executed | Ring.UnmaskedCopyDestination (shown by Ring.UnmaskedDestinationLeavesBuffer) | Ring.CopyDestination (used through TaskQueues.TaskQueue.Slot by TaskQueues.TaskQueue.WriteBatch) |
| BepuUtilities/TaskQueue.cs:434,443-444 | An enqueue copies in one block only when the wrapped end slot is past the wrapped start slot. Otherwise it takes the first `n - start % n` tasks for the first block and forms `ref tasks[firstRegionCount]` for the second. | A ring of capacity 4: a 4-task batch from slot 0, or a single task or stop command written to slot 3. The wrapped end slot is 0, so the two-block branch runs with `firstRegionCount` equal to the batch length, and the span index throws IndexOutOfRangeException after `allocatedTaskIndex` has moved. | Take the one-block branch also when the wrapped end slot is 0, that is, whenever the batch ends within the ring. | not executed | Ring.SecondBlockPastBatch (with Ring.SingleRegion, the branch test as written) | TaskQueues.TaskQueue.WriteBatch (with Ring.SingleRegionCorrected) |
