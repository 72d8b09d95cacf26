/**
 * The task queue as a sequential state machine. Every lock-free or locked
 * step of the original is one method: a compare-and-swap always succeeds,
 * and a spinlock is a boolean that is checked, taken and released within
 * the method. Running a task appends to the ghost log.
 */
module TaskQueues {
  import opened Options
  import opened Bits
  import opened Handles
  import opened Tasks
  import opened Continuations
  import opened Accounting
  import opened Ring

  /** The completion callback's log entry when decrementing record c finishes its job and a callback is set. */
  function CompletionEvents(c: TaskContinuation, workerIndex: int): (r: seq<Event>)
    requires WellFormed(c)
    ensures |r| <= 1 && forall e | e in r :: e.Completed?
    ensures r != [] <==> Decremented(c).remainingTaskCounter == 0 && c.onCompleted.Some?
    ensures r != [] ==> r[0].callback == c.onCompleted.value && r[0].userId == c.userId && r[0].callbackContext == c.onCompletedContext
  {
    if Decremented(c).remainingTaskCounter == 0 && c.onCompleted.Some? then
      [Completed(c.onCompleted.value, c.userId, c.onCompletedContext, workerIndex)]
    else []
  }

  /** Builds the tasks of a loop over [start, start + count), one per index, as the loop-enqueueing operations do. */
  method BuildForTasks(func: int, context: int, start: int, count: nat) returns (loopTasks: array<Task>)
    ensures fresh(loopTasks) && loopTasks[..] == ForTasks(func, context, start, count)
  {
    loopTasks := new Task[count](_ => DefaultTask);
    for i := 0 to count
      invariant forall j :: 0 <= j < i ==> loopTasks[j] == Task(Call(func), Pointer(context), start + j)
    {
      loopTasks[i] := Task(Call(func), Pointer(context), i + start);
    }
  }

  /** Builds a loop's tasks over [start, start + count), each wrapped to report to continuation h, as the parallel loop does. */
  method BuildWrappedForTasks(func: int, context: int, h: ContinuationHandle, start: int, count: nat) returns (loopTasks: array<Task>)
    ensures fresh(loopTasks) && loopTasks[..] == WrapAll(h, ForTasks(func, context, start, count))
  {
    loopTasks := new Task[count](_ => DefaultTask);
    for i := 0 to count
      invariant forall j :: 0 <= j < i ==> loopTasks[j] == WrapTask(h, Task(Call(func), Pointer(context), start + j))
    {
      var wrappedTaskContext := WrappedTaskContext(func, Pointer(context), h);
      loopTasks[i] := Task(TaskFunction.RunAndMarkAsComplete, Wrapped(wrappedTaskContext), i + start);
    }
  }

  class TaskQueue {
    /** The ring of task slots; its length is a power of two. */
    const tasks: array<Task>
    const taskMask: nat
    const taskShift: nat
    /** Dequeue frontier: the next logical index to claim. */
    var taskIndex: nat
    /** Allocation frontier: the end of the range reserved by producers. */
    var allocatedTaskIndex: nat
    /** Write frontier: the end of the range visible to consumers. */
    var writtenTaskIndex: nat
    var taskLocker: bool

    /** The continuation table (the queue's TaskQueueContinuations). */
    const continuations: array<TaskContinuation>
    /** The index pool, as the set of free slot indices. */
    var indexPool: set<nat>
    var continuationCount: int
    var continuationLocker: bool
    /** The completions that freed a slot since the last reset; the continuation count follows from it. */
    ghost var completions: nat

    /** Everything the tasks run so far did, in order. */
    ghost var log: seq<Event>

    /** The fixed shape: ring capacity a power of two with its mask and shift, and well-formed slots. */
    ghost predicate Shaped()
      reads this`indexPool, this`continuationCount, this`completions, continuations
    {
      && tasks.Length == Pow2(taskShift) && taskMask == tasks.Length - 1
      && continuations.Length <= INT32_MAX
      && (forall k | k in indexPool :: k < continuations.Length)
      && IsInt32(continuationCount) && continuationCount == CountAfterCompletions(completions)
      && (forall j :: 0 <= j < continuations.Length ==> WellFormed(continuations[j]))
    }

    /** The frontier invariant: dequeue <= write <= allocate, and no more than a ring's worth outstanding. */
    ghost predicate FrontiersOrdered()
      reads this`taskIndex, this`writtenTaskIndex, this`allocatedTaskIndex
    {
      taskIndex <= writtenTaskIndex <= allocatedTaskIndex && allocatedTaskIndex - taskIndex <= tasks.Length
    }

    /** The state between two steps: shaped, frontiers ordered, and no producer half-way (write == allocate). */
    ghost predicate Valid()
      reads this`indexPool, this`continuationCount, this`completions, continuations, this`taskIndex, this`writtenTaskIndex, this`allocatedTaskIndex
    {
      Shaped() && FrontiersOrdered() && writtenTaskIndex == allocatedTaskIndex
    }

    /** The tasks visible to consumers, oldest first. */
    ghost function Contents(): seq<Task>
      reads this`taskIndex, this`writtenTaskIndex, tasks
      requires tasks.Length > 0 && taskIndex <= writtenTaskIndex
    {
      Window(tasks[..], taskIndex, writtenTaskIndex)
    }

    /** No stop command has been written last (the debug check made before every enqueue). */
    ghost predicate NoStopWritten()
      reads this`writtenTaskIndex, tasks
      requires tasks.Length > 0
    {
      writtenTaskIndex == 0 || !tasks[(writtenTaskIndex - 1) % tasks.Length].func.Null?
    }

    /** No visible task is the stop command. */
    ghost predicate StopFree()
      reads this`taskIndex, this`writtenTaskIndex, tasks
      requires tasks.Length > 0 && taskIndex <= writtenTaskIndex
    {
      forall j :: 0 <= j < |Contents()| ==> !Contents()[j].func.Null?
    }

    /** The slot of logical index x: x & taskMask. */
    function Slot(x: nat): (s: nat)
      reads this, continuations
      requires Shaped()
      ensures s < tasks.Length && s == x % tasks.Length
    {
      Pow2IsPow2(taskShift);
      CopyDestination(x, taskMask)
    }

    /**
     * A queue with a ring of RingCapacity(maximumTaskCapacity) slots and a
     * table of maximumContinuationCapacity cleared records, all free, in the
     * state Reset leaves.
     */
    constructor (maximumTaskCapacity: int, maximumContinuationCapacity: int)
      requires 1 <= maximumTaskCapacity <= 0x4000_0000
      requires 0 <= maximumContinuationCapacity <= INT32_MAX
      ensures Valid() && Contents() == [] && NoStopWritten() && log == []
      ensures taskIndex == 0 && allocatedTaskIndex == 0 && writtenTaskIndex == 0
      ensures tasks.Length == RingCapacity(maximumTaskCapacity)
      ensures continuations.Length == maximumContinuationCapacity
      ensures continuations[..] == seq(maximumContinuationCapacity, _ => Cleared)
      ensures indexPool == AllIndices(maximumContinuationCapacity)
      ensures continuationCount == 0 && completions == 0 && !taskLocker && !continuationLocker
      ensures fresh(tasks) && fresh(continuations)
    {
      var capacity := RingCapacity(maximumTaskCapacity);
      continuations := new TaskContinuation[maximumContinuationCapacity](_ => Cleared);
      indexPool := AllIndices(maximumContinuationCapacity);
      continuationCount := 0;
      completions := 0;
      continuationLocker := false;
      tasks := new Task[capacity](_ => DefaultTask);
      taskMask := capacity - 1;
      taskShift := TrailingZeroCount(capacity);
      taskLocker := false;
      log := [];
      new;
      Reset();
    }

    /** Returns the queue to an empty state without reallocating: frontiers to 0, every continuation record cleared, the count to 0. */
    method Reset()
      requires Shaped() && !taskLocker && !continuationLocker
      modifies this`taskIndex, this`allocatedTaskIndex, this`writtenTaskIndex, this`continuationCount, this`completions, continuations
      ensures Valid() && Contents() == [] && NoStopWritten()
      ensures taskIndex == 0 && allocatedTaskIndex == 0 && writtenTaskIndex == 0
      ensures continuations[..] == seq(continuations.Length, _ => Cleared)
      ensures continuationCount == 0 && completions == 0
    {
      taskIndex := 0;
      allocatedTaskIndex := 0;
      writtenTaskIndex := 0;
      forall j | 0 <= j < continuations.Length {
        continuations[j] := Cleared;
      }
      continuationCount := 0;
      completions := 0;
    }

    /**
     * One dequeue attempt. Empty when nothing is visible; Stop when the
     * oldest task is the stop command, which stays in place so that every
     * worker sees it; otherwise the oldest task is claimed and returned.
     */
    method TryDequeue() returns (result: DequeueTaskResult, task: Task)
      requires Valid()
      modifies this`taskIndex
      ensures Valid()
      ensures result == DequeueTaskResult.Empty <==> old(Contents()) == []
      ensures result == DequeueTaskResult.Stop <==> old(Contents()) != [] && old(Contents())[0].func.Null?
      ensures result == DequeueTaskResult.Success ==>
        task == old(Contents())[0] && taskIndex == old(taskIndex) + 1 && Contents() == old(Contents())[1..]
      ensures result != DequeueTaskResult.Success ==> taskIndex == old(taskIndex) && task == DefaultTask
    {
      var nextTaskIndex, sampledWrittenTaskIndex := taskIndex, writtenTaskIndex;
      if nextTaskIndex >= sampledWrittenTaskIndex {
        return DequeueTaskResult.Empty, DefaultTask;
      }
      var t := tasks[Slot(nextTaskIndex)];
      if t.func.Null? {
        return DequeueTaskResult.Stop, DefaultTask;
      }
      // The compare-and-swap of the frontier always succeeds in a sequential run.
      WindowAdvance(tasks[..], taskIndex, writtenTaskIndex);
      taskIndex := nextTaskIndex + 1;
      return DequeueTaskResult.Success, t;
    }

    /** Block copy of src[from .. from + count) into slots [dest, dest + count). */
    method CopyBlock(src: seq<Task>, from: nat, count: nat, dest: nat)
      requires from + count <= |src| && dest + count <= tasks.Length
      modifies tasks
      ensures forall k :: dest <= k < dest + count ==> tasks[k] == src[k - dest + from]
      ensures forall k :: 0 <= k < tasks.Length && !(dest <= k < dest + count) ==> tasks[k] == old(tasks[k])
    {
      for m := 0 to count
        invariant forall k :: dest <= k < dest + m ==> tasks[k] == src[k - dest + from]
        invariant forall k :: 0 <= k < tasks.Length && !(dest <= k < dest + m) ==> tasks[k] == old(tasks[k])
      {
        tasks[dest + m] := src[from + m];
      }
    }

    /**
     * Copies a batch into the ring at logical indices [start, start + |batch|):
     * one block when the range ends by the end of the ring, otherwise a first
     * block up to the end and a second from slot 0.
     */
    method WriteBatch(batch: seq<Task>, taskStartIndex: nat)
      requires Shaped() && 0 < |batch| <= tasks.Length
      modifies tasks
      ensures PlacedAt(old(tasks[..]), tasks[..], taskStartIndex, batch)
    {
      ghost var before := tasks[..];
      var n := tasks.Length;
      var wrappedInclusiveStartIndex := Slot(taskStartIndex);
      var wrappedInclusiveEndIndex := Slot(taskStartIndex + |batch|);
      SingleRegionCorrected(taskStartIndex, |batch|, n);
      // Two corrections of the original (see Ring.SecondBlockPastBatch and
      // Ring.UnmaskedCopyDestination): a batch ending on the last slot is
      // copied as one block, and the first block goes to the masked slot.
      var firstRegionCount := |batch|;
      if wrappedInclusiveEndIndex > wrappedInclusiveStartIndex || wrappedInclusiveEndIndex == 0 {
        CopyBlock(batch, 0, |batch|, wrappedInclusiveStartIndex);
      } else {
        firstRegionCount := n - wrappedInclusiveStartIndex;
        var secondBlobStartTask := batch[firstRegionCount];
        var secondRegionCount := |batch| - firstRegionCount;
        CopyBlock(batch, 0, firstRegionCount, wrappedInclusiveStartIndex);
        CopyBlock(batch, firstRegionCount, secondRegionCount, 0);
      }
      TwoRegionPlacement(before, tasks[..], taskStartIndex, batch, firstRegionCount);
    }

    /**
     * Reserves and writes a batch without publishing it. Full, changing
     * nothing, when the batch would overrun unconsumed tasks; otherwise the
     * allocation frontier advances by the batch length and task i lands in
     * slot (start + i) & mask; every other slot keeps its task.
     */
    method TryEnqueueTasksUnsafelyInternal(batch: seq<Task>) returns (result: EnqueueTaskResult, taskEndIndex: nat)
      requires Valid() && |batch| > 0 && NoStopWritten()
      modifies this`allocatedTaskIndex, tasks
      ensures Shaped() && taskEndIndex == old(allocatedTaskIndex) + |batch|
      ensures result == EnqueueTaskResult.Full <==> taskEndIndex - taskIndex > tasks.Length
      ensures result == EnqueueTaskResult.Full || result == EnqueueTaskResult.Success
      ensures result == EnqueueTaskResult.Full ==> allocatedTaskIndex == old(allocatedTaskIndex) && tasks[..] == old(tasks[..])
      ensures result == EnqueueTaskResult.Success ==> allocatedTaskIndex == taskEndIndex && FrontiersOrdered()
      ensures result == EnqueueTaskResult.Success ==> PlacedAt(old(tasks[..]), tasks[..], old(allocatedTaskIndex), batch)
      ensures result == EnqueueTaskResult.Success ==>
        Window(tasks[..], taskIndex, allocatedTaskIndex) == old(Contents()) + batch
    {
      var taskStartIndex := allocatedTaskIndex;
      taskEndIndex := taskStartIndex + |batch|;
      if taskEndIndex - taskIndex > tasks.Length {
        return EnqueueTaskResult.Full, taskEndIndex;
      }
      allocatedTaskIndex := taskEndIndex;
      WriteBatch(batch, taskStartIndex);
      WindowAfterWrite(old(tasks[..]), tasks[..], taskIndex, taskStartIndex, batch);
      return EnqueueTaskResult.Success, taskEndIndex;
    }

    /**
     * Enqueues a batch of at least one task without taking the lock: on
     * success the write frontier is published at the new allocation frontier
     * and the batch is visible after the tasks already queued; on Full
     * nothing changes.
     */
    method TryEnqueueTasksUnsafely(batch: seq<Task>) returns (result: EnqueueTaskResult)
      requires Valid() && |batch| > 0 && NoStopWritten()
      modifies this`allocatedTaskIndex, this`writtenTaskIndex, tasks
      ensures Valid() && taskIndex == old(taskIndex)
      ensures result == EnqueueTaskResult.Full || result == EnqueueTaskResult.Success
      ensures result == EnqueueTaskResult.Full <==> old(allocatedTaskIndex) + |batch| - taskIndex > tasks.Length
      ensures result == EnqueueTaskResult.Full ==>
        allocatedTaskIndex == old(allocatedTaskIndex) && writtenTaskIndex == old(writtenTaskIndex) && tasks[..] == old(tasks[..])
      ensures result == EnqueueTaskResult.Success ==>
        && allocatedTaskIndex == writtenTaskIndex == old(allocatedTaskIndex) + |batch|
        && PlacedAt(old(tasks[..]), tasks[..], old(allocatedTaskIndex), batch)
        && Contents() == old(Contents()) + batch
    {
      var taskEndIndex;
      result, taskEndIndex := TryEnqueueTasksUnsafelyInternal(batch);
      if result == EnqueueTaskResult.Success {
        writtenTaskIndex := taskEndIndex;
      }
    }

    /**
     * Enqueues a batch if the ring is uncontested. An empty batch succeeds
     * at once; a held lock gives Contested; otherwise the lock is taken, the
     * batch is written and published as by TryEnqueueTasksUnsafely, and the
     * lock is released.
     */
    method TryEnqueueTasks(batch: seq<Task>) returns (result: EnqueueTaskResult)
      requires Valid()
      requires |batch| > 0 && !taskLocker ==> NoStopWritten()
      modifies this`allocatedTaskIndex, this`writtenTaskIndex, this`taskLocker, tasks
      ensures Valid() && taskIndex == old(taskIndex) && taskLocker == old(taskLocker)
      ensures result == EnqueueTaskResult.Contested <==> |batch| > 0 && old(taskLocker)
      ensures result == EnqueueTaskResult.Full <==>
        |batch| > 0 && !old(taskLocker) && old(allocatedTaskIndex) + |batch| - taskIndex > tasks.Length
      ensures result != EnqueueTaskResult.Success ==>
        allocatedTaskIndex == old(allocatedTaskIndex) && writtenTaskIndex == old(writtenTaskIndex) && tasks[..] == old(tasks[..])
      ensures result == EnqueueTaskResult.Success ==>
        && allocatedTaskIndex == writtenTaskIndex == old(allocatedTaskIndex) + |batch|
        && PlacedAt(old(tasks[..]), tasks[..], old(allocatedTaskIndex), batch)
        && Contents() == old(Contents()) + batch
      ensures result == EnqueueTaskResult.Success && |batch| > 0 ==>
        tasks[(writtenTaskIndex - 1) % tasks.Length] == batch[|batch| - 1]
    {
      if |batch| == 0 {
        return EnqueueTaskResult.Success;
      }
      if taskLocker {
        return EnqueueTaskResult.Contested;
      }
      taskLocker := true;
      var taskEndIndex;
      ghost var start := allocatedTaskIndex;
      result, taskEndIndex := TryEnqueueTasksUnsafelyInternal(batch);
      if result == EnqueueTaskResult.Success {
        writtenTaskIndex := taskEndIndex;
        assert start + (|batch| - 1) == writtenTaskIndex - 1;
      }
      taskLocker := false;
    }

    /** Enqueues the stop command (a task with a null function) under the lock. */
    method TryEnqueueStop() returns (result: EnqueueTaskResult)
      requires Valid() && (!taskLocker ==> NoStopWritten())
      modifies this`allocatedTaskIndex, this`writtenTaskIndex, this`taskLocker, tasks
      ensures Valid() && taskIndex == old(taskIndex) && taskLocker == old(taskLocker)
      ensures result == EnqueueTaskResult.Contested <==> old(taskLocker)
      ensures result == EnqueueTaskResult.Full <==> !old(taskLocker) && old(|Contents()|) == tasks.Length
      ensures result != EnqueueTaskResult.Success ==> writtenTaskIndex == old(writtenTaskIndex) && tasks[..] == old(tasks[..])
      ensures result == EnqueueTaskResult.Success ==>
        Contents() == old(Contents()) + [DefaultTask] && !NoStopWritten()
    {
      result := TryEnqueueTasks([DefaultTask]);
    }

    /** Enqueues the stop command without taking the lock. */
    method TryEnqueueStopUnsafely() returns (result: EnqueueTaskResult)
      requires Valid() && NoStopWritten()
      modifies this`allocatedTaskIndex, this`writtenTaskIndex, tasks
      ensures Valid() && taskIndex == old(taskIndex)
      ensures result == EnqueueTaskResult.Full || result == EnqueueTaskResult.Success
      ensures result == EnqueueTaskResult.Full <==> old(|Contents()|) == tasks.Length
      ensures result == EnqueueTaskResult.Full ==> writtenTaskIndex == old(writtenTaskIndex) && tasks[..] == old(tasks[..])
      ensures result == EnqueueTaskResult.Success ==>
        Contents() == old(Contents()) + [DefaultTask] && !NoStopWritten()
    {
      ghost var start := allocatedTaskIndex;
      result := TryEnqueueTasksUnsafely([DefaultTask]);
      if result == EnqueueTaskResult.Success {
        assert tasks[(start + 0) % tasks.Length] == [DefaultTask][0];
        assert start + 0 == writtenTaskIndex - 1;
      }
    }

    /**
     * The completion wrapper: runs the wrapped user function, then
     * decrements the counter of the continuation its handle designates. The
     * decrement that reaches 0 runs the completion callback, if any, and,
     * under the continuation lock, returns the slot to the index pool and
     * decrements the continuation count. The handle must designate a slot:
     * the original dereferences the lookup without a null check.
     */
    method RunAndMarkAsComplete(taskId: int, wrapper: WrappedTaskContext, workerIndex: int)
      requires Shaped() && !continuationLocker
      requires GetContinuation(continuations[..], wrapper.continuation).Some?
      modifies this`log, this`indexPool, this`continuationCount, this`completions, continuations
      ensures Shaped()
      ensures var k := wrapper.continuation.Index();
        var c := old(continuations[k]);
        var done := Decremented(c).remainingTaskCounter == 0;
        && continuations[..] == old(continuations[..])[k := Decremented(c)]
        && indexPool == (if done then old(indexPool) + {k} else old(indexPool))
        && continuationCount == (if done then Dec32(old(continuationCount)) else old(continuationCount))
        && completions == (if done then old(completions) + 1 else old(completions))
        && log == old(log) + [Ran(wrapper.func, wrapper.context, taskId, workerIndex)] + CompletionEvents(c, workerIndex)
    {
      log := log + [Ran(wrapper.func, wrapper.context, taskId, workerIndex)];
      var index := wrapper.continuation.Index();
      var continuation := continuations[index];
      var counter := Dec32(continuation.remainingTaskCounter);
      continuations[index] := continuation.(remainingTaskCounter := counter);
      if counter == 0 {
        if continuation.onCompleted.Some? {
          log := log + [Completed(continuation.onCompleted.value, continuation.userId, continuation.onCompletedContext, workerIndex)];
        }
        // Taken and released at once: the lock is free in a sequential run.
        indexPool := indexPool + {index};
        continuationCount := Dec32(continuationCount);
        completions := completions + 1;
      }
    }

    /**
     * Calls a task's function: a user function is logged, the completion
     * wrapper runs as RunAndMarkAsComplete. The task comes from an
     * outstanding sequence a + [t] + b whose completion tasks are accounted
     * for; afterwards a + b still is, every slot keeps its slack, and the log
     * gains exactly one call, the one t performs.
     */
    method Invoke(t: Task, workerIndex: int, ghost a: seq<Task>, ghost b: seq<Task>)
      requires Shaped() && !continuationLocker && !t.func.Null?
      requires Accounted(a + [t] + b, continuations[..], indexPool)
      modifies this`log, this`indexPool, this`continuationCount, this`completions, continuations
      ensures Shaped() && Accounted(a + b, continuations[..], indexPool)
      ensures forall k: nat | k < continuations.Length ::
        Slack(a + b, continuations[..], k) == old(Slack(a + [t] + b, continuations[..], k))
      ensures SameVersions(old(continuations[..]), continuations[..])
      ensures Executes(t).Some?
      ensures t.func.Call? ==>
        && log == old(log) + [RanEvent(t, workerIndex)]
        && continuations[..] == old(continuations[..]) && indexPool == old(indexPool)
        && continuationCount == old(continuationCount)
      ensures t.func.RunAndMarkAsComplete? ==> IsCompletionTask(t)
      ensures IsCompletionTask(t) ==>
        var k := t.context.wrapper.continuation.Index();
        var c := old(continuations[k]);
        var done := Decremented(c).remainingTaskCounter == 0;
        && GetContinuation(old(continuations[..]), t.context.wrapper.continuation) == Some(k)
        && continuations[..] == old(continuations[..])[k := Decremented(c)]
        && indexPool == (if done then old(indexPool) + {k} else old(indexPool))
        && continuationCount == (if done then Dec32(old(continuationCount)) else old(continuationCount))
        && log == old(log) + [RanEvent(t, workerIndex)] + CompletionEvents(c, workerIndex)
      ensures |log| > |old(log)| && log[..|old(log)|] == old(log)
      ensures forall f, c, i :: RanCount(log[|old(log)|..], f, c, i) == if Performs(t, f, c, i) then 1 else 0
      ensures forall f, c, i ::
        RanCount(log[|old(log)|..], f, c, i) + PendingCount(a + b, f, c, i) == PendingCount(a + [t] + b, f, c, i)
    {
      assert t in a + [t] + b;
      match t.func {
        case Call(id) =>
          log := log + [RanEvent(t, workerIndex)];
          PlainRunPreserves(a, t, b, continuations[..], indexPool);
          forall f, c, i ensures RanCount(log[|old(log)|..], f, c, i) == if Performs(t, f, c, i) then 1 else 0 {
            assert log[|old(log)|..] == [RanEvent(t, workerIndex)] + [];
            RanCountOfRun(t, workerIndex, [], f, c, i);
          }
        case RunAndMarkAsComplete =>
          CompletionRunPreserves(a, t, b, continuations[..], indexPool);
          ghost var c := continuations[t.context.wrapper.continuation.Index()];
          RunAndMarkAsComplete(t.taskId, t.context.wrapper, workerIndex);
          forall f, c', i ensures RanCount(log[|old(log)|..], f, c', i) == if Performs(t, f, c', i) then 1 else 0 {
            assert log[|old(log)|..] == [RanEvent(t, workerIndex)] + CompletionEvents(c, workerIndex);
            RanCountOfRun(t, workerIndex, CompletionEvents(c, workerIndex), f, c', i);
          }
      }
      forall f, c, i ensures RanCount(log[|old(log)|..], f, c, i) + PendingCount(a + b, f, c, i) == PendingCount(a + [t] + b, f, c, i) {
        assert [] + log[|old(log)|..] == log[|old(log)|..];
        RunConserves([], log[|old(log)|..], a, t, b, f, c, i);
      }
    }

    /** One dequeue attempt, running the task on success. */
    method TryDequeueAndRun(workerIndex: int) returns (result: DequeueTaskResult)
      requires Valid() && !continuationLocker
      requires Accounted(Contents(), continuations[..], indexPool)
      modifies this`taskIndex, this`log, this`indexPool, this`continuationCount, this`completions, continuations
      ensures Valid() && Accounted(Contents(), continuations[..], indexPool)
      ensures SameVersions(old(continuations[..]), continuations[..])
      ensures result == DequeueTaskResult.Empty <==> old(Contents()) == []
      ensures result == DequeueTaskResult.Stop <==> old(Contents()) != [] && old(Contents())[0].func.Null?
      ensures result != DequeueTaskResult.Success ==>
        && taskIndex == old(taskIndex) && log == old(log) && continuations[..] == old(continuations[..])
        && indexPool == old(indexPool) && continuationCount == old(continuationCount)
      ensures result == DequeueTaskResult.Success ==>
        && Contents() == old(Contents())[1..]
        && |log| > |old(log)| && log[|old(log)|] == RanEvent(old(Contents())[0], workerIndex)
      ensures forall k: nat | k < continuations.Length ::
        Slack(Contents(), continuations[..], k) == old(Slack(Contents(), continuations[..], k))
      ensures |log| >= |old(log)| && log[..|old(log)|] == old(log)
      ensures forall f, c, i ::
        RanCount(log[|old(log)|..], f, c, i) + PendingCount(Contents(), f, c, i) == old(PendingCount(Contents(), f, c, i))
    {
      ghost var q, log0 := Contents(), log;
      var task;
      result, task := TryDequeue();
      if result == DequeueTaskResult.Success {
        assert q == [] + [task] + q[1..];
        Invoke(task, workerIndex, [], q[1..]);
        assert [] + q[1..] == q[1..];
        forall f, c, i ensures RanCount(log[|log0|..], f, c, i) + PendingCount(q[1..], f, c, i) == PendingCount(q, f, c, i) {
          assert log[|log0|..] == [] + log[|log0|..];
          RunConserves([], log[|log0|..], [], task, q[1..], f, c, i);
        }
      } else {
        assert log[|log0|..] == [];
      }
    }

    /**
     * One round of the enqueue retry loop: try to enqueue what remains of a
     * batch; if the ring is full, run the first remaining task inline
     * instead. The tasks outstanding afterwards (queued, or still to be
     * enqueued) are accounted for with unchanged slack, and each task either
     * ran or is still outstanding.
     */
    method TryEnqueueOrRunFirst(rest: seq<Task>, workerIndex: int, ghost q0: seq<Task>)
      returns (result: EnqueueTaskResult, ghost outstanding: seq<Task>)
      requires Valid() && !taskLocker && !continuationLocker && NoStopWritten() && Contents() == q0
      requires forall t | t in rest :: !t.func.Null?
      requires Accounted(q0 + rest, continuations[..], indexPool)
      modifies this`allocatedTaskIndex, this`writtenTaskIndex, this`taskLocker, tasks
      modifies this`log, this`indexPool, this`continuationCount, this`completions, continuations
      ensures Valid() && !taskLocker && NoStopWritten() && taskIndex == old(taskIndex)
      ensures result == EnqueueTaskResult.Success || result == EnqueueTaskResult.Full
      ensures result == EnqueueTaskResult.Success ==>
        Contents() == q0 + rest && outstanding == q0 + rest && log == old(log)
      ensures result == EnqueueTaskResult.Full ==>
        rest != [] && Contents() == q0 && outstanding == q0 + rest[1..]
      ensures old(StopFree()) ==> StopFree()
      ensures SameVersions(old(continuations[..]), continuations[..])
      ensures Accounted(outstanding, continuations[..], indexPool)
      ensures forall k: nat | k < continuations.Length ::
        Slack(outstanding, continuations[..], k) == old(Slack(q0 + rest, continuations[..], k))
      ensures |log| >= |old(log)| && log[..|old(log)|] == old(log)
      ensures forall f, c, i ::
        RanCount(log[|old(log)|..], f, c, i) + PendingCount(outstanding, f, c, i) == PendingCount(q0 + rest, f, c, i)
    {
      result := TryEnqueueTasks(rest);
      if result == EnqueueTaskResult.Success {
        if rest != [] {
          assert rest[|rest| - 1] in rest;
        }
        outstanding := q0 + rest;
        assert log[|old(log)|..] == [];
      } else if result == EnqueueTaskResult.Full {
        var task := rest[0];
        assert task in rest;
        assert q0 + rest == q0 + [task] + rest[1..];
        outstanding := q0 + rest[1..];
        Invoke(task, workerIndex, q0, rest[1..]);
      } else {
        assert false;
      }
    }

    /**
     * Enqueues a batch, retrying until it is in. While the ring is full the
     * first remaining task is run inline and dropped from the batch; if that
     * was the last one, nothing is enqueued. On return a suffix of the batch
     * follows the tasks already queued, and every task of the batch either
     * ran (once, in the log) or is queued.
     */
    method EnqueueTasks(batch: seq<Task>, workerIndex: int) returns (ghost inlined: nat)
      requires Valid() && !taskLocker && !continuationLocker && (|batch| > 0 ==> NoStopWritten())
      requires forall t | t in batch :: !t.func.Null?
      requires Accounted(Contents() + batch, continuations[..], indexPool)
      modifies this`allocatedTaskIndex, this`writtenTaskIndex, this`taskLocker, tasks
      modifies this`log, this`indexPool, this`continuationCount, this`completions, continuations
      ensures Valid() && !taskLocker && NoStopWritten() == old(NoStopWritten()) && taskIndex == old(taskIndex)
      ensures inlined <= |batch| && Contents() == old(Contents()) + batch[inlined..]
      ensures old(StopFree()) ==> StopFree()
      ensures SameVersions(old(continuations[..]), continuations[..])
      ensures Accounted(Contents(), continuations[..], indexPool)
      ensures forall k: nat | k < continuations.Length ::
        Slack(Contents(), continuations[..], k) == old(Slack(Contents() + batch, continuations[..], k))
      ensures |log| >= |old(log)| && forall f, c, i ::
        RanCount(log[|old(log)|..], f, c, i) + PendingCount(Contents(), f, c, i) == old(PendingCount(Contents() + batch, f, c, i))
    {
      ghost var q0, log0, table0, stopFree := Contents(), log, continuations[..], StopFree();
      inlined := 0;
      if |batch| == 0 {
        // The first attempt succeeds at once.
        assert q0 + batch == q0 && log[|log0|..] == [];
        return;
      }
      var rest := batch;
      while true
        invariant Valid() && !taskLocker && !continuationLocker && NoStopWritten() && taskIndex == old(taskIndex)
        invariant Contents() == q0 && inlined <= |batch| && rest == batch[inlined..]
        invariant forall t | t in rest :: !t.func.Null?
        invariant Accounted(q0 + rest, continuations[..], indexPool)
        invariant SameVersions(table0, continuations[..])
        invariant forall k: nat | k < continuations.Length ::
          Slack(q0 + rest, continuations[..], k) == Slack(q0 + batch, table0, k)
        invariant |log| >= |log0| && forall f, c, i ::
          RanCount(log[|log0|..], f, c, i) + PendingCount(q0 + rest, f, c, i) == PendingCount(q0 + batch, f, c, i)
        decreases |rest|
      {
        ghost var logBefore := log;
        var result;
        ghost var outstanding;
        result, outstanding := TryEnqueueOrRunFirst(rest, workerIndex, q0);
        forall f, c, i ensures RanCount(log[|log0|..], f, c, i) == RanCount(logBefore[|log0|..], f, c, i) + RanCount(log[|logBefore|..], f, c, i) {
          assert log[|log0|..] == logBefore[|log0|..] + log[|logBefore|..];
          RanCountAppend(logBefore[|log0|..], log[|logBefore|..], f, c, i);
        }
        if result == EnqueueTaskResult.Success {
          break;
        }
        inlined := inlined + 1;
        if |rest| == 1 {
          assert outstanding == q0;
          rest := rest[1..];
          break;
        }
        ghost var prev := rest;
        rest := rest[1..];
        assert forall t | t in rest :: t in prev;
      }
    }

    /**
     * One round of the stop retry loop: try to enqueue the stop command; if
     * the ring is full, dequeue and run the oldest task instead. That task is
     * not a stop, since none is queued.
     */
    method TryEnqueueStopOrRunOne(workerIndex: int) returns (result: EnqueueTaskResult)
      requires Valid() && !taskLocker && !continuationLocker && NoStopWritten() && StopFree()
      requires Accounted(Contents(), continuations[..], indexPool)
      modifies this`taskIndex, this`allocatedTaskIndex, this`writtenTaskIndex, this`taskLocker, tasks
      modifies this`log, this`indexPool, this`continuationCount, this`completions, continuations
      ensures Valid() && !taskLocker
      ensures result == EnqueueTaskResult.Success || result == EnqueueTaskResult.Full
      ensures result == EnqueueTaskResult.Success ==>
        Contents() == old(Contents()) + [DefaultTask] && !NoStopWritten() && log == old(log)
      ensures result == EnqueueTaskResult.Full ==>
        old(Contents()) != [] && Contents() == old(Contents())[1..] && NoStopWritten() && StopFree()
      ensures Accounted(Contents(), continuations[..], indexPool)
      ensures forall k: nat | k < continuations.Length ::
        Slack(Contents(), continuations[..], k) == old(Slack(Contents(), continuations[..], k))
      ensures |log| >= |old(log)| && log[..|old(log)|] == old(log)
      ensures forall f, c, i ::
        RanCount(log[|old(log)|..], f, c, i) + PendingCount(Contents(), f, c, i) == old(PendingCount(Contents(), f, c, i))
    {
      ghost var q := Contents();
      // TryEnqueueStop is the original's TryEnqueueTasks on the one-task stop batch.
      result := TryEnqueueStop();
      if result == EnqueueTaskResult.Success {
        PlainTasksAppend(q, [DefaultTask], continuations[..], indexPool);
        forall f, c, i ensures PendingCount(Contents(), f, c, i) == PendingCount(q, f, c, i) {
          PendingCountAppend(q, [DefaultTask], f, c, i);
          assert [DefaultTask][1..] == [];
        }
        assert log[|old(log)|..] == [];
      } else if result == EnqueueTaskResult.Full {
        assert Contents()[0] == q[0];
        var dequeueResult := TryDequeueAndRun(workerIndex);
        assert dequeueResult != DequeueTaskResult.Stop;
      } else {
        assert false;
      }
    }

    /**
     * Enqueues the stop command, running queued tasks inline while the ring
     * is full to make room. A stop must not be queued already.
     */
    method EnqueueStop(workerIndex: int) returns (ghost dropped: nat)
      requires Valid() && !taskLocker && !continuationLocker && NoStopWritten() && StopFree()
      requires Accounted(Contents(), continuations[..], indexPool)
      modifies this`taskIndex, this`allocatedTaskIndex, this`writtenTaskIndex, this`taskLocker, tasks
      modifies this`log, this`indexPool, this`continuationCount, this`completions, continuations
      ensures Valid() && !taskLocker && !NoStopWritten()
      ensures dropped <= |old(Contents())| && Contents() == old(Contents())[dropped..] + [DefaultTask]
      ensures Accounted(Contents(), continuations[..], indexPool)
      ensures forall k: nat | k < continuations.Length ::
        Slack(Contents(), continuations[..], k) == old(Slack(Contents(), continuations[..], k))
      ensures |log| >= |old(log)| && forall f, c, i ::
        RanCount(log[|old(log)|..], f, c, i) + PendingCount(Contents(), f, c, i) == old(PendingCount(Contents(), f, c, i))
    {
      ghost var q0, log0, table0 := Contents(), log, continuations[..];
      dropped := 0;
      while true
        invariant Valid() && !taskLocker && !continuationLocker && NoStopWritten() && StopFree()
        invariant dropped <= |q0| && Contents() == q0[dropped..]
        invariant Accounted(Contents(), continuations[..], indexPool)
        invariant forall k: nat | k < continuations.Length ::
          Slack(Contents(), continuations[..], k) == Slack(q0, table0, k)
        invariant |log| >= |log0| && forall f, c, i ::
          RanCount(log[|log0|..], f, c, i) + PendingCount(Contents(), f, c, i) == PendingCount(q0, f, c, i)
        decreases |Contents()|
      {
        ghost var logBefore := log;
        var result := TryEnqueueStopOrRunOne(workerIndex);
        forall f, c, i ensures RanCount(log[|log0|..], f, c, i) == RanCount(logBefore[|log0|..], f, c, i) + RanCount(log[|logBefore|..], f, c, i) {
          assert log[|log0|..] == logBefore[|log0|..] + log[|logBefore|..];
          RanCountAppend(logBefore[|log0|..], log[|logBefore|..], f, c, i);
        }
        if result == EnqueueTaskResult.Success {
          break;
        }
        assert q0[dropped..][1..] == q0[dropped + 1..];
        dropped := dropped + 1;
      }
    }

    /**
     * One allocation attempt. Contested when the continuation lock is held;
     * Full when the continuation count has reached the table's capacity;
     * otherwise a free index is taken from the pool and its record gets the
     * callback, context and user id, the version plus one (wrapping at 32
     * bits) and the task count, and the handle carries that index and
     * version. The continuation count is left as it is, as in the original.
     * When the guard lets the attempt through, the pool must hold a free
     * index (the original's pool would hand out an index past the table).
     */
    method TryAllocateContinuation(taskCount: int, userContinuationId: nat, onCompleted: Option<int>, onCompletedContext: int)
      returns (result: AllocateTaskContinuationResult, continuationHandle: ContinuationHandle)
      requires Shaped() && IsInt32(taskCount)
      requires !continuationLocker && continuationCount < continuations.Length ==> indexPool != {}
      modifies this`indexPool, continuations
      ensures Shaped() && continuationCount == old(continuationCount)
      ensures result == AllocateTaskContinuationResult.Contested <==> continuationLocker
      ensures result == AllocateTaskContinuationResult.Full <==> !continuationLocker && continuationCount >= continuations.Length
      ensures result != AllocateTaskContinuationResult.Success ==>
        continuationHandle == Handles.Null() && indexPool == old(indexPool) && continuations[..] == old(continuations[..])
      ensures result == AllocateTaskContinuationResult.Success ==>
        var k := continuationHandle.Index();
        && k in old(indexPool) && indexPool == old(indexPool) - {k}
        && continuationHandle == New(k, Inc32(old(continuations[k].version)))
        && continuations[..] == old(continuations[..])[k :=
             Allocated(old(continuations[k]), taskCount, userContinuationId, onCompleted, onCompletedContext)]
      ensures result == AllocateTaskContinuationResult.Success && 0 <= old(continuations[continuationHandle.Index()].version) < INT32_MAX ==>
        && GetContinuation(continuations[..], continuationHandle) == Some(continuationHandle.Index())
        && (IsComplete(continuations[..], continuationHandle) <==> taskCount == 0)
      ensures continuations.Length > 0 && completions <= 0x8000_0000 ==> result != AllocateTaskContinuationResult.Full
      ensures !continuationLocker && completions == 0x8000_0001 ==> result == AllocateTaskContinuationResult.Full
    {
      if continuations.Length > 0 {
        CountGuardAsWritten(completions, continuations.Length);
      }
      continuationHandle := Handles.Null();
      if continuationLocker {
        return AllocateTaskContinuationResult.Contested, continuationHandle;
      }
      // The lock is taken here and released on every return.
      if continuationCount >= continuations.Length {
        return AllocateTaskContinuationResult.Full, continuationHandle;
      }
      var index :| index in indexPool;
      indexPool := indexPool - {index};
      var continuation := continuations[index];
      var newVersion := Inc32(continuation.version);
      continuations[index] := TaskContinuation(onCompleted, onCompletedContext, userContinuationId, newVersion, taskCount);
      continuationHandle := New(index, newVersion);
      if 0 <= continuation.version < INT32_MAX {
        AllocatedHandleIsLive(old(continuations[..]), index, taskCount, userContinuationId, onCompleted, onCompletedContext);
      }
      return AllocateTaskContinuationResult.Success, continuationHandle;
    }

    /**
     * Allocates a continuation. The original retries, running queued tasks
     * while the table is full; here the table must have room, so the first
     * attempt succeeds.
     */
    method AllocateContinuation(taskCount: int, workerIndex: int, userContinuationId: nat, onCompleted: Option<int>, onCompletedContext: int)
      returns (continuationHandle: ContinuationHandle)
      requires Shaped() && IsInt32(taskCount) && !continuationLocker
      requires continuationCount < continuations.Length && indexPool != {}
      modifies this`indexPool, continuations
      ensures Shaped() && continuationCount == old(continuationCount)
      ensures var k := continuationHandle.Index();
        && k in old(indexPool) && indexPool == old(indexPool) - {k}
        && continuationHandle == New(k, Inc32(old(continuations[k].version)))
        && continuations[..] == old(continuations[..])[k :=
             Allocated(old(continuations[k]), taskCount, userContinuationId, onCompleted, onCompletedContext)]
      ensures 0 <= old(continuations[continuationHandle.Index()].version) < INT32_MAX ==>
        && GetContinuation(continuations[..], continuationHandle) == Some(continuationHandle.Index())
        && (IsComplete(continuations[..], continuationHandle) <==> taskCount == 0)
    {
      var result;
      result, continuationHandle := TryAllocateContinuation(taskCount, userContinuationId, onCompleted, onCompletedContext);
      assert result == AllocateTaskContinuationResult.Success;
    }

    /**
     * Wraps each task so that running it reports to the continuation: the
     * i-th wrapped task runs the i-th task's function and context under its
     * task id, then decrements the continuation's counter.
     */
    method CreateCompletionWrappedTasks(continuationHandle: ContinuationHandle, source: seq<Task>, wrappedTasks: array<Task>)
      requires |source| == wrappedTasks.Length
      requires forall t | t in source :: t.func.Call?
      modifies wrappedTasks
      ensures wrappedTasks[..] == WrapAll(continuationHandle, source)
    {
      var count := if |source| < wrappedTasks.Length then |source| else wrappedTasks.Length;
      for i := 0 to count
        invariant forall j :: 0 <= j < i ==> wrappedTasks[j] == WrapTask(continuationHandle, source[j])
      {
        assert source[i] in source;
        var sourceTask := source[i];
        var wrappedContext := WrappedTaskContext(sourceTask.func.id, sourceTask.context, continuationHandle);
        wrappedTasks[i] := Task(TaskFunction.RunAndMarkAsComplete, Wrapped(wrappedContext), sourceTask.taskId);
      }
    }

    /**
     * Enqueues a loop over [start, end) without the lock: one task per index,
     * enqueued as by TryEnqueueTasksUnsafely, so the loop is either queued
     * whole or, on Full, not at all.
     */
    method TryEnqueueForUnsafely(func: int, context: int, inclusiveStartIndex: int, exclusiveEndIndex: int)
      returns (result: EnqueueTaskResult)
      requires Valid() && NoStopWritten()
      requires inclusiveStartIndex < exclusiveEndIndex && IsInt32(exclusiveEndIndex - inclusiveStartIndex)
      modifies this`allocatedTaskIndex, this`writtenTaskIndex, tasks
      ensures Valid() && taskIndex == old(taskIndex)
      ensures result == EnqueueTaskResult.Full || result == EnqueueTaskResult.Success
      ensures result == EnqueueTaskResult.Full <==>
        old(allocatedTaskIndex) + (exclusiveEndIndex - inclusiveStartIndex) - taskIndex > tasks.Length
      ensures result == EnqueueTaskResult.Full ==>
        allocatedTaskIndex == old(allocatedTaskIndex) && writtenTaskIndex == old(writtenTaskIndex) && tasks[..] == old(tasks[..])
      ensures result == EnqueueTaskResult.Success ==>
        Contents() == old(Contents()) + ForTasks(func, context, inclusiveStartIndex, exclusiveEndIndex - inclusiveStartIndex)
      ensures result == EnqueueTaskResult.Success ==> forall i ::
        PendingCount(Contents(), func, Pointer(context), i) ==
          old(PendingCount(Contents(), func, Pointer(context), i)) + (if inclusiveStartIndex <= i < exclusiveEndIndex then 1 else 0)
    {
      var taskCount := exclusiveEndIndex - inclusiveStartIndex;
      var loopTasks := BuildForTasks(func, context, inclusiveStartIndex, taskCount);
      ghost var q := Contents();
      result := TryEnqueueTasksUnsafely(loopTasks[..]);
      if result == EnqueueTaskResult.Success {
        forall i ensures PendingCount(Contents(), func, Pointer(context), i) ==
          PendingCount(q, func, Pointer(context), i) + (if inclusiveStartIndex <= i < exclusiveEndIndex then 1 else 0)
        {
          PendingCountAppend(q, loopTasks[..], func, Pointer(context), i);
          ForTasksPending(func, context, inclusiveStartIndex, taskCount, i);
        }
      }
    }

    /**
     * Enqueues a loop over [start, end), one task per index, as by
     * EnqueueTasks: while the ring is full the leading iterations run inline.
     * Afterwards every index of the range has either run once or is queued
     * once more than before, and nothing else changed in what is pending.
     */
    method EnqueueFor(func: int, context: int, inclusiveStartIndex: int, exclusiveEndIndex: int, workerIndex: int)
      returns (ghost inlined: nat)
      requires Valid() && !taskLocker && !continuationLocker
      requires inclusiveStartIndex < exclusiveEndIndex ==> NoStopWritten()
      requires inclusiveStartIndex <= exclusiveEndIndex && IsInt32(exclusiveEndIndex - inclusiveStartIndex)
      requires Accounted(Contents(), continuations[..], indexPool)
      modifies this`allocatedTaskIndex, this`writtenTaskIndex, this`taskLocker, tasks
      modifies this`log, this`indexPool, this`continuationCount, this`completions, continuations
      ensures Valid() && !taskLocker && NoStopWritten() == old(NoStopWritten()) && taskIndex == old(taskIndex)
      ensures old(StopFree()) ==> StopFree()
      ensures Accounted(Contents(), continuations[..], indexPool)
      ensures SameVersions(old(continuations[..]), continuations[..])
      ensures inlined <= exclusiveEndIndex - inclusiveStartIndex
      ensures Contents() == old(Contents()) + ForTasks(func, context, inclusiveStartIndex, exclusiveEndIndex - inclusiveStartIndex)[inlined..]
      ensures |log| >= |old(log)|
      ensures RanOrPending(log[|old(log)|..], old(Contents()), Contents(), func, context, inclusiveStartIndex, exclusiveEndIndex)
    {
      var taskCount := exclusiveEndIndex - inclusiveStartIndex;
      var loopTasks := BuildForTasks(func, context, inclusiveStartIndex, taskCount);
      ghost var q := Contents();
      PlainTasksAppend(q, loopTasks[..], continuations[..], indexPool);
      inlined := EnqueueTasks(loopTasks[..], workerIndex);
      PlainLoopPending(q, func, context, inclusiveStartIndex, taskCount);
    }

    /**
     * The queue between operations: valid, both locks free, no stop command
     * written, and every queued completion task accounted for.
     */
    ghost predicate Quiescent()
      reads this`indexPool, this`continuationCount, this`completions, this`continuationLocker, continuations
      reads this`taskIndex, this`writtenTaskIndex, this`allocatedTaskIndex, this`taskLocker, tasks
    {
      && Valid() && !taskLocker && !continuationLocker && NoStopWritten()
      && Accounted(Contents(), continuations[..], indexPool)
    }

    /**
     * A loop's job is queued behind the tasks q0 that were queued before it:
     * its handle designates its slot, no task of q0 reports to that slot,
     * every task of job does, and the slot's counter is owed nothing beyond
     * the queued tasks.
     */
    ghost predicate JobQueued(continuationHandle: ContinuationHandle, q0: seq<Task>, job: seq<Task>)
      reads this`indexPool, this`continuationCount, this`completions, this`continuationLocker, continuations
      reads this`taskIndex, this`writtenTaskIndex, this`allocatedTaskIndex, this`taskLocker, tasks
    {
      && Quiescent() && StopFree()
      && continuationHandle.Initialized() && continuationHandle.Index() < continuations.Length
      && continuations[continuationHandle.Index()].version == continuationHandle.Version()
      && Slack(Contents(), continuations[..], continuationHandle.Index()) == 0
      && Refs(q0, continuationHandle.Index()) == 0
      && (forall t | t in job :: RefersTo(t, continuationHandle.Index()))
      && Contents() == q0 + job
    }

    /**
     * Allocates the continuation of a loop's job of count tasks and builds
     * the job: the loop's tasks over [start, start + count), wrapped to
     * report to it. The job is accounted for behind the queued tasks, none
     * of which reports to its slot, and the slot is owed nothing else.
     */
    method AllocateLoopJob(func: int, context: int, start: int, count: nat, workerIndex: int)
      returns (continuationHandle: ContinuationHandle, loopTasks: array<Task>)
      requires Quiescent()
      requires IsInt32(count) && continuationCount < continuations.Length && indexPool != {}
      requires forall k | k in indexPool :: 0 <= continuations[k].version < INT32_MAX
      modifies this`indexPool, continuations
      ensures Valid() && fresh(loopTasks) && loopTasks[..] == WrapAll(continuationHandle, ForTasks(func, context, start, count))
      ensures Accounted(Contents() + loopTasks[..], continuations[..], indexPool)
      ensures var k := continuationHandle.Index();
        && continuationHandle.Initialized() && k < continuations.Length
        && continuations[k].version == continuationHandle.Version()
        && Slack(Contents() + loopTasks[..], continuations[..], k) == 0
        && Refs(Contents(), k) == 0
    {
      ghost var q := Contents();
      ghost var pool0, table0 := indexPool, continuations[..];
      continuationHandle := AllocateContinuation(count, workerIndex, 0, None, 0);
      var k := continuationHandle.Index();
      AllocationPreserves(q, table0, pool0, k, continuations[k]);
      loopTasks := BuildWrappedForTasks(func, context, continuationHandle, start, count);
      JobAppend(q, continuationHandle, ForTasks(func, context, start, count), continuations[..], indexPool);
    }

    /**
     * The submitting half of the parallel loop: allocates a continuation for
     * count tasks, wraps the loop's tasks over [start, start + count) to
     * report to it, and enqueues them as by EnqueueTasks. The handle is live
     * afterwards, its slot is owed nothing beyond the queued job, and the
     * queue is the old one followed by the job's tasks not run inline.
     */
    method SubmitLoopJob(func: int, context: int, start: int, count: nat, workerIndex: int)
      returns (continuationHandle: ContinuationHandle, ghost job: seq<Task>)
      requires Quiescent() && StopFree()
      requires IsInt32(count) && continuationCount < continuations.Length && indexPool != {}
      requires forall k | k in indexPool :: 0 <= continuations[k].version < INT32_MAX
      modifies this`allocatedTaskIndex, this`writtenTaskIndex, this`taskLocker, tasks
      modifies this`log, this`indexPool, this`continuationCount, this`completions, continuations
      ensures taskIndex == old(taskIndex) && JobQueued(continuationHandle, old(Contents()), job)
      ensures |log| >= |old(log)|
      ensures RanOrPending(log[|old(log)|..], old(Contents()), Contents(), func, context, start, start + count)
    {
      ghost var q := Contents();
      var loopTasks;
      continuationHandle, loopTasks := AllocateLoopJob(func, context, start, count, workerIndex);
      ghost var inlined := EnqueueTasks(loopTasks[..], workerIndex);
      job := loopTasks[..][inlined..];
      WrappedSuffixRefersTo(continuationHandle, ForTasks(func, context, start, count), inlined);
      LoopJobPending(q, continuationHandle, func, context, start, count);
    }

    /**
     * The state while the loop's caller helps: the queue is whole[d..] and
     * accounted for, the handle still designates its slot, which is owed
     * nothing beyond the queued tasks, and every task of whole either ran
     * (in the log since log0) or is still queued.
     */
    ghost predicate Helping(continuationHandle: ContinuationHandle, whole: seq<Task>, d: nat, log0: seq<Event>)
      reads this, tasks, continuations
    {
      && Valid() && !continuationLocker && StopFree()
      && Accounted(Contents(), continuations[..], indexPool)
      && continuationHandle.Initialized() && continuationHandle.Index() < continuations.Length
      && continuations[continuationHandle.Index()].version == continuationHandle.Version()
      && Slack(Contents(), continuations[..], continuationHandle.Index()) == 0
      && d <= |whole| && Contents() == whole[d..]
      && |log| >= |log0| && log[..|log0|] == log0
      && forall f, c, i :: RanCount(log[|log0|..], f, c, i) + PendingCount(Contents(), f, c, i) == PendingCount(whole, f, c, i)
    }

    /**
     * One round of helping: while the job behind the handle is incomplete,
     * the queue still holds a task reporting to it, and the oldest queued
     * task is not the stop command, so one task is dequeued and run.
     */
    method HelpOnce(continuationHandle: ContinuationHandle, workerIndex: int, ghost whole: seq<Task>, ghost d: nat, ghost log0: seq<Event>)
      requires Helping(continuationHandle, whole, d, log0) && !IsComplete(continuations[..], continuationHandle)
      modifies this`taskIndex, this`log, this`indexPool, this`continuationCount, this`completions, continuations
      ensures d < |whole| && Helping(continuationHandle, whole, d + 1, log0)
    {
      var k := continuationHandle.Index();
      ghost var q, logBefore := Contents(), log;
      assert Refs(q, k) > 0;
      assert q[0] in q;
      var dequeueResult := TryDequeueAndRun(workerIndex);
      assert dequeueResult == DequeueTaskResult.Success;
      assert whole[d + 1..] == whole[d..][1..];
      LogExtends(log0, logBefore, log);
    }

    /** Helps, one round at a time, until the job behind the handle is complete. */
    method DrainUntilComplete(continuationHandle: ContinuationHandle, workerIndex: int, ghost whole: seq<Task>, ghost d0: nat, ghost log0: seq<Event>)
      returns (ghost d: nat)
      requires Helping(continuationHandle, whole, d0, log0)
      modifies this`taskIndex, this`log, this`indexPool, this`continuationCount, this`completions, continuations
      ensures Helping(continuationHandle, whole, d, log0) && IsComplete(continuations[..], continuationHandle)
    {
      d := d0;
      while !IsComplete(continuations[..], continuationHandle)
        invariant Helping(continuationHandle, whole, d, log0)
        decreases |whole| - d
      {
        HelpOnce(continuationHandle, workerIndex, whole, d, log0);
        d := d + 1;
      }
    }

    /**
     * The helping half of the parallel loop: until the job behind the handle
     * is complete, dequeue a task and run it. The queue is the old tasks q0
     * followed by the job's tasks, the only outstanding ones reporting to
     * the handle's slot, so while the job is incomplete the queue is never
     * empty, and it holds no stop command. On return the job is complete and
     * what is still queued is a suffix of q0.
     */
    method HelpUntilComplete(continuationHandle: ContinuationHandle, workerIndex: int, ghost q0: seq<Task>, ghost job: seq<Task>)
      returns (ghost drained: nat)
      requires JobQueued(continuationHandle, q0, job)
      modifies this`taskIndex, this`log, this`indexPool, this`continuationCount, this`completions, continuations
      ensures Quiescent() && StopFree()
      ensures IsComplete(continuations[..], continuationHandle)
      ensures drained <= |q0| && Contents() == q0[drained..]
      ensures |log| >= |old(log)| && log[..|old(log)|] == old(log)
      ensures RanOrStillQueued(log[|old(log)|..], old(Contents()), Contents())
    {
      var k := continuationHandle.Index();
      ghost var whole, log0 := q0 + job, log;
      ghost var d: nat := 0;
      assert log[|log0|..] == [];
      d := DrainUntilComplete(continuationHandle, workerIndex, whole, 0, log0);
      JobDrained(q0, job, d, k);
      drained := if d <= |q0| then d else |q0|;
    }

    /**
     * The parallel loop over a range of at least two iterations: the
     * iterations after the first are submitted as one job with its own
     * continuation, the calling thread runs the first itself, and then helps
     * run queued tasks until the job is complete. Every index of the range
     * runs, and each queued task either ran or is still queued; what is
     * queued afterwards is a suffix of what was queued before, so the loop's
     * own tasks are all done.
     */
    method ForSeveral(func: int, context: int, inclusiveStartIndex: int, exclusiveEndIndex: int, workerIndex: int)
      returns (ghost helped: nat)
      requires Quiescent() && StopFree()
      requires exclusiveEndIndex - inclusiveStartIndex > 1 && IsInt32(exclusiveEndIndex - inclusiveStartIndex)
      requires continuationCount < continuations.Length && indexPool != {}
      requires forall k | k in indexPool :: 0 <= continuations[k].version < INT32_MAX
      modifies this`taskIndex, this`allocatedTaskIndex, this`writtenTaskIndex, this`taskLocker, tasks
      modifies this`log, this`indexPool, this`continuationCount, this`completions, continuations
      ensures Quiescent() && StopFree()
      ensures helped <= |old(Contents())| && Contents() == old(Contents())[helped..]
      ensures |log| >= |old(log)|
      ensures RanOrPending(log[|old(log)|..], old(Contents()), Contents(), func, context, inclusiveStartIndex, exclusiveEndIndex)
    {
      ghost var q0, log0 := Contents(), log;
      var iterationCount := exclusiveEndIndex - inclusiveStartIndex;
      var continuationHandle;
      ghost var job;
      continuationHandle, job := SubmitLoopJob(func, context, inclusiveStartIndex + 1, iterationCount - 1, workerIndex);
      ghost var logSubmitted := log;
      log := log + [Ran(func, Pointer(context), inclusiveStartIndex, workerIndex)];
      helped := HelpUntilComplete(continuationHandle, workerIndex, q0, job);
      LoopConserves(log0, logSubmitted, workerIndex, log, q0, job, helped, func, context, inclusiveStartIndex, exclusiveEndIndex);
    }

    /**
     * The parallel loop over [start, end). Nothing happens for an empty
     * range, and a single iteration runs on the calling thread without
     * touching the queue. Longer ranges run as by ForSeveral. Every index of
     * the range runs, and each task queued before either ran or is still
     * queued.
     */
    method For(func: int, context: int, inclusiveStartIndex: int, exclusiveEndIndex: int, workerIndex: int)
      returns (ghost helped: nat)
      requires Valid() && IsInt32(exclusiveEndIndex - inclusiveStartIndex)
      requires exclusiveEndIndex - inclusiveStartIndex > 1 ==>
        && Quiescent() && StopFree() && continuationCount < continuations.Length && indexPool != {}
        && forall k | k in indexPool :: 0 <= continuations[k].version < INT32_MAX
      modifies this`taskIndex, this`allocatedTaskIndex, this`writtenTaskIndex, this`taskLocker, tasks
      modifies this`log, this`indexPool, this`continuationCount, this`completions, continuations
      ensures Valid() && (old(Quiescent()) ==> Quiescent()) && (old(StopFree()) ==> StopFree())
      ensures helped <= |old(Contents())| && Contents() == old(Contents())[helped..]
      ensures |log| >= |old(log)|
      ensures RanOrPending(log[|old(log)|..], old(Contents()), Contents(), func, context, inclusiveStartIndex, exclusiveEndIndex)
      ensures exclusiveEndIndex - inclusiveStartIndex <= 1 ==>
        && helped == 0 && taskIndex == old(taskIndex) && allocatedTaskIndex == old(allocatedTaskIndex)
        && writtenTaskIndex == old(writtenTaskIndex) && taskLocker == old(taskLocker) && tasks[..] == old(tasks[..])
        && continuations[..] == old(continuations[..]) && indexPool == old(indexPool)
        && continuationCount == old(continuationCount) && completions == old(completions)
      ensures exclusiveEndIndex <= inclusiveStartIndex ==> log == old(log)
      ensures exclusiveEndIndex - inclusiveStartIndex == 1 ==>
        log == old(log) + [Ran(func, Pointer(context), inclusiveStartIndex, workerIndex)]
    {
      helped := 0;
      var iterationCount := exclusiveEndIndex - inclusiveStartIndex;
      if iterationCount <= 0 {
        assert log[|log|..] == [];
        NothingRan(log[|log|..], Contents(), Contents(), func, context, inclusiveStartIndex, exclusiveEndIndex);
        return;
      }
      if iterationCount == 1 {
        ghost var log0 := log;
        log := log + [Ran(func, Pointer(context), inclusiveStartIndex, workerIndex)];
        assert log[|log0|..] == [Ran(func, Pointer(context), inclusiveStartIndex, workerIndex)];
        OnlyIterationRan(Contents(), func, context, inclusiveStartIndex, workerIndex);
      } else {
        helped := ForSeveral(func, context, inclusiveStartIndex, exclusiveEndIndex, workerIndex);
      }
    }
  }
}
