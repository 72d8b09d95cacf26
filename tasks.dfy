/**
 * Tasks as values. A task's function pointer is abstracted to a tag: null
 * (the stop command), a user function identified by a number, or the
 * queue's own completion wrapper. What a user function does is not
 * modelled: running a task appends an Event to a log.
 */
module Tasks {
  import opened Options
  import opened Handles

  datatype TaskFunction = Null | Call(id: int) | RunAndMarkAsComplete

  /** The context pointer: an opaque address, or a wrapped task context. */
  datatype TaskContext = Pointer(address: int) | Wrapped(wrapper: WrappedTaskContext)

  /** A wrapped task: the user function and context to run, and the continuation to report to. */
  datatype WrappedTaskContext = WrappedTaskContext(func: int, context: TaskContext, continuation: ContinuationHandle)

  datatype Task = Task(func: TaskFunction, context: TaskContext, taskId: int)

  /** The all-default task; with its null function it is also the stop command. */
  const DefaultTask: Task := Task(Null, Pointer(0), 0)

  datatype DequeueTaskResult = Success | Empty | Stop
  datatype EnqueueTaskResult = Success | Contested | Full
  datatype AllocateTaskContinuationResult = Success | Contested | Full

  /** What running a task leaves in the log: a user function ran, or a job's completion callback ran. */
  datatype Event =
    | Ran(func: int, context: TaskContext, taskId: int, workerIndex: int)
    | Completed(callback: int, userId: nat, callbackContext: int, workerIndex: int)

  /** A task that runs the completion wrapper over a wrapped context. */
  predicate IsCompletionTask(t: Task) {
    t.func.RunAndMarkAsComplete? && t.context.Wrapped?
  }

  /** The user function and context a task ends up calling, if it calls one. */
  function Executes(t: Task): Option<(int, TaskContext)> {
    match t.func
    case Null => None
    case Call(f) => Some((f, t.context))
    case RunAndMarkAsComplete =>
      if t.context.Wrapped? then Some((t.context.wrapper.func, t.context.wrapper.context)) else None
  }

  /** The log entry for running task t on a worker. */
  function RanEvent(t: Task, workerIndex: int): (e: Event)
    requires Executes(t).Some?
    ensures e.Ran? && (e.func, e.context) == Executes(t).value && e.taskId == t.taskId
  {
    Ran(Executes(t).value.0, Executes(t).value.1, t.taskId, workerIndex)
  }

  /** The task that runs user task t and then reports to continuation h. */
  function WrapTask(h: ContinuationHandle, t: Task): (w: Task)
    requires t.func.Call?
    ensures IsCompletionTask(w) && w.context.wrapper.continuation == h
    ensures Executes(w) == Executes(t) && w.taskId == t.taskId
  {
    Task(RunAndMarkAsComplete, Wrapped(WrappedTaskContext(t.func.id, t.context, h)), t.taskId)
  }

  /** Every task of ts (each calling a user function) wrapped to report to continuation h. */
  function WrapAll(h: ContinuationHandle, ts: seq<Task>): (r: seq<Task>)
    requires forall t | t in ts :: t.func.Call?
    ensures |r| == |ts| && forall j :: 0 <= j < |ts| ==> r[j] == WrapTask(h, ts[j])
  {
    seq(|ts|, j requires 0 <= j < |ts| => WrapTask(h, ts[j]))
  }

  /** The tasks of a loop over [start, start + count): one call of the function per index. */
  function ForTasks(func: int, context: int, start: int, count: nat): (r: seq<Task>)
    ensures |r| == count
    ensures forall j :: 0 <= j < count ==> r[j] == Task(Call(func), Pointer(context), start + j)
    ensures forall t | t in r :: t.func.Call?
  {
    if count == 0 then []
    else ForTasks(func, context, start, count - 1) + [Task(Call(func), Pointer(context), start + count - 1)]
  }

  // Counting over queues and logs.

  /** Whether t is a completion task reporting to slot k. */
  predicate RefersTo(t: Task, k: nat) {
    IsCompletionTask(t) && t.context.wrapper.continuation.Index() == k
  }

  /** The number of completion tasks in q that report to slot k. */
  function Refs(q: seq<Task>, k: nat): nat {
    if q == [] then 0 else (if RefersTo(q[0], k) then 1 else 0) + Refs(q[1..], k)
  }

  /** Whether running t calls function f with context c for index i. */
  predicate Performs(t: Task, f: int, c: TaskContext, i: int) {
    Executes(t) == Some((f, c)) && t.taskId == i
  }

  /** The number of tasks in q that would call f with context c for index i. */
  function PendingCount(q: seq<Task>, f: int, c: TaskContext, i: int): nat {
    if q == [] then 0 else (if Performs(q[0], f, c, i) then 1 else 0) + PendingCount(q[1..], f, c, i)
  }

  /** Whether e records a call of f with context c for index i. */
  predicate Records(e: Event, f: int, c: TaskContext, i: int) {
    e.Ran? && e.func == f && e.context == c && e.taskId == i
  }

  /** The number of calls of f with context c for index i recorded in the log. */
  function RanCount(log: seq<Event>, f: int, c: TaskContext, i: int): nat {
    if log == [] then 0 else (if Records(log[0], f, c, i) then 1 else 0) + RanCount(log[1..], f, c, i)
  }

  lemma {:induction false} RefsAppend(a: seq<Task>, b: seq<Task>, k: nat)
    ensures Refs(a + b, k) == Refs(a, k) + Refs(b, k)
  {
    if a != [] {
      assert (a + b)[1..] == a[1..] + b;
      RefsAppend(a[1..], b, k);
    } else {
      assert a + b == b;
    }
  }

  lemma {:induction false} PendingCountAppend(a: seq<Task>, b: seq<Task>, f: int, c: TaskContext, i: int)
    ensures PendingCount(a + b, f, c, i) == PendingCount(a, f, c, i) + PendingCount(b, f, c, i)
  {
    if a != [] {
      assert (a + b)[1..] == a[1..] + b;
      PendingCountAppend(a[1..], b, f, c, i);
    } else {
      assert a + b == b;
    }
  }

  lemma {:induction false} RanCountAppend(a: seq<Event>, b: seq<Event>, f: int, c: TaskContext, i: int)
    ensures RanCount(a + b, f, c, i) == RanCount(a, f, c, i) + RanCount(b, f, c, i)
  {
    if a != [] {
      assert (a + b)[1..] == a[1..] + b;
      RanCountAppend(a[1..], b, f, c, i);
    } else {
      assert a + b == b;
    }
  }

  /** A slot that no task of q refers to has no completion task of q reporting to it. */
  lemma {:induction false} NoRefs(q: seq<Task>, k: nat)
    requires Refs(q, k) == 0
    ensures forall t | t in q :: !RefersTo(t, k)
  {
    if q != [] {
      NoRefs(q[1..], k);
      assert forall t | t in q :: t == q[0] || t in q[1..];
    }
  }

  /** When every task of q calling (f, c) reports to slot k, those calls are bounded by the references to k. */
  lemma {:induction false} PendingBoundedByRefs(q: seq<Task>, f: int, c: TaskContext, i: int, k: nat)
    requires forall t | t in q && Executes(t) == Some((f, c)) :: RefersTo(t, k)
    ensures PendingCount(q, f, c, i) <= Refs(q, k)
  {
    if q != [] {
      assert q[0] in q;
      assert forall t | t in q[1..] :: t in q;
      PendingBoundedByRefs(q[1..], f, c, i, k);
    }
  }

  /** A queue holding no call of (f, c) counts none for any index. */
  lemma {:induction false} NoPending(q: seq<Task>, f: int, c: TaskContext, i: int)
    requires forall t | t in q :: Executes(t) != Some((f, c))
    ensures PendingCount(q, f, c, i) == 0
  {
    if q != [] {
      assert q[0] in q;
      assert forall t | t in q[1..] :: t in q;
      NoPending(q[1..], f, c, i);
    }
  }

  /** The plain loop tasks call (f, c) exactly once for each index of [start, start + count). */
  lemma {:induction false} ForTasksPending(func: int, context: int, start: int, count: nat, i: int)
    ensures PendingCount(ForTasks(func, context, start, count), func, Pointer(context), i)
      == if start <= i < start + count then 1 else 0
  {
    if count > 0 {
      var prefix := ForTasks(func, context, start, count - 1);
      var last := Task(Call(func), Pointer(context), start + count - 1);
      PendingCountAppend(prefix, [last], func, Pointer(context), i);
      ForTasksPending(func, context, start, count - 1, i);
      assert [last][1..] == [];
    }
  }

  /** Running t logs one call, which counts for (f, c, i) exactly when t performs it; completion callbacks count for nothing. */
  lemma RanCountOfRun(t: Task, w: int, extra: seq<Event>, f: int, c: TaskContext, i: int)
    requires Executes(t).Some? && forall e | e in extra :: e.Completed?
    ensures RanCount([RanEvent(t, w)] + extra, f, c, i) == if Performs(t, f, c, i) then 1 else 0
  {
    assert ([RanEvent(t, w)] + extra)[1..] == extra;
    NoRecords(extra, f, c, i);
  }

  lemma {:induction false} NoRecords(log: seq<Event>, f: int, c: TaskContext, i: int)
    requires forall e | e in log :: e.Completed?
    ensures RanCount(log, f, c, i) == 0
  {
    if log != [] {
      assert log[0] in log;
      assert forall e | e in log[1..] :: e in log;
      NoRecords(log[1..], f, c, i);
    }
  }

  /**
   * Running t out of the outstanding tasks a + [t] + b, with l1 the calls it
   * logs: for every (f, c, i), calls logged plus calls still outstanding stay
   * the same.
   */
  lemma RunConserves(l0: seq<Event>, l1: seq<Event>, a: seq<Task>, t: Task, b: seq<Task>, f: int, c: TaskContext, i: int)
    requires RanCount(l1, f, c, i) == if Performs(t, f, c, i) then 1 else 0
    ensures RanCount(l0 + l1, f, c, i) + PendingCount(a + b, f, c, i) == RanCount(l0, f, c, i) + PendingCount(a + [t] + b, f, c, i)
  {
    RanCountAppend(l0, l1, f, c, i);
    PendingCountAppend(a, b, f, c, i);
    PendingCountAppend(a + [t], b, f, c, i);
    PendingCountAppend(a, [t], f, c, i);
    assert [t][1..] == [];
  }

  /** Wrapping keeps what every task calls: the wrapped batch counts each (f, c, i) as often as the original. */
  lemma {:induction false} WrapAllPending(h: ContinuationHandle, ts: seq<Task>, f: int, c: TaskContext, i: int)
    requires forall t | t in ts :: t.func.Call?
    ensures PendingCount(WrapAll(h, ts), f, c, i) == PendingCount(ts, f, c, i)
  {
    if ts != [] {
      assert forall t | t in ts[1..] :: t in ts;
      assert ts[0] in ts;
      assert WrapAll(h, ts)[1..] == WrapAll(h, ts[1..]);
      WrapAllPending(h, ts[1..], f, c, i);
    }
  }

  /** Every wrapped task reports to h's slot, and to no other. */
  lemma {:induction false} WrapAllRefs(h: ContinuationHandle, ts: seq<Task>, k: nat)
    requires forall t | t in ts :: t.func.Call?
    ensures Refs(WrapAll(h, ts), k) == if k == h.Index() then |ts| else 0
  {
    if ts != [] {
      assert forall t | t in ts[1..] :: t in ts;
      assert ts[0] in ts;
      assert WrapAll(h, ts)[1..] == WrapAll(h, ts[1..]);
      WrapAllRefs(h, ts[1..], k);
    }
  }

  /** Dropping a prefix of a queue never adds a pending call. */
  lemma {:induction false} PendingCountSuffix(q: seq<Task>, d: nat, f: int, c: TaskContext, i: int)
    requires d <= |q|
    ensures PendingCount(q[d..], f, c, i) <= PendingCount(q, f, c, i)
  {
    if d > 0 {
      assert q[d..] == q[1..][d - 1..];
      PendingCountSuffix(q[1..], d - 1, f, c, i);
    }
  }

  /** A sequence of tasks that all report to slot k references k once per task. */
  lemma {:induction false} AllRefs(j: seq<Task>, k: nat)
    requires forall t | t in j :: RefersTo(t, k)
    ensures Refs(j, k) == |j|
  {
    if j != [] {
      assert j[0] in j;
      assert forall t | t in j[1..] :: t in j;
      AllRefs(j[1..], k);
    }
  }

  /**
   * Once no task reporting to slot k is left in a suffix of q0 + job (every
   * task of job reporting to k), that suffix holds nothing of the job: it is
   * a suffix of q0.
   */
  lemma JobDrained(q0: seq<Task>, job: seq<Task>, d: nat, k: nat)
    requires d <= |q0 + job| && forall t | t in job :: RefersTo(t, k)
    requires Refs((q0 + job)[d..], k) == 0
    ensures var e := if d <= |q0| then d else |q0|; (q0 + job)[d..] == q0[e..]
  {
    if d <= |q0| {
      assert (q0 + job)[d..] == q0[d..] + job;
      RefsAppend(q0[d..], job, k);
      AllRefs(job, k);
      assert job == [];
    } else {
      var rest := (q0 + job)[d..];
      assert forall t | t in rest :: t in job;
      AllRefs(rest, k);
    }
  }

  /** Queuing a wrapped loop over [start, start + count) adds one pending call of (func, context) per index and nothing else. */
  lemma LoopJobPending(q: seq<Task>, h: ContinuationHandle, func: int, context: int, start: int, count: nat)
    ensures forall f, c, i ::
      PendingCount(q + WrapAll(h, ForTasks(func, context, start, count)), f, c, i) ==
        PendingCount(q, f, c, i) + (if f == func && c == Pointer(context) && start <= i < start + count then 1 else 0)
  {
    var plain := ForTasks(func, context, start, count);
    forall f, c, i ensures PendingCount(q + WrapAll(h, plain), f, c, i) ==
      PendingCount(q, f, c, i) + (if f == func && c == Pointer(context) && start <= i < start + count then 1 else 0)
    {
      PendingCountAppend(q, WrapAll(h, plain), f, c, i);
      WrapAllPending(h, plain, f, c, i);
      if f == func && c == Pointer(context) {
        ForTasksPending(func, context, start, count, i);
      } else {
        NoPending(plain, f, c, i);
      }
    }
  }

  /** Queuing a plain loop over [start, start + count) adds one pending call of (func, context) per index and nothing else. */
  lemma PlainLoopPending(q: seq<Task>, func: int, context: int, start: int, count: nat)
    ensures forall f, c, i ::
      PendingCount(q + ForTasks(func, context, start, count), f, c, i) ==
        PendingCount(q, f, c, i) + (if f == func && c == Pointer(context) && start <= i < start + count then 1 else 0)
  {
    var plain := ForTasks(func, context, start, count);
    forall f, c, i ensures PendingCount(q + plain, f, c, i) ==
      PendingCount(q, f, c, i) + (if f == func && c == Pointer(context) && start <= i < start + count then 1 else 0)
    {
      PendingCountAppend(q, plain, f, c, i);
      if f == func && c == Pointer(context) {
        ForTasksPending(func, context, start, count, i);
      } else {
        NoPending(plain, f, c, i);
      }
    }
  }

  /** Every task left of a wrapped batch reports to its handle's slot. */
  lemma WrappedSuffixRefersTo(h: ContinuationHandle, ts: seq<Task>, d: nat)
    requires forall t | t in ts :: t.func.Call?
    requires d <= |ts|
    ensures forall t | t in WrapAll(h, ts)[d..] :: RefersTo(t, h.Index())
  {
    var job := WrapAll(h, ts)[d..];
    forall t | t in job ensures RefersTo(t, h.Index()) {
      var j :| 0 <= j < |job| && job[j] == t;
      assert t == WrapTask(h, ts[d + j]);
    }
  }

  /** The calls counted in a log with one event e between two parts. */
  lemma RanCountSplit(a: seq<Event>, e: Event, b: seq<Event>, f: int, c: TaskContext, i: int)
    ensures RanCount(a + [e] + b, f, c, i) == RanCount(a, f, c, i) + (if Records(e, f, c, i) then 1 else 0) + RanCount(b, f, c, i)
  {
    RanCountAppend(a + [e], b, f, c, i);
    RanCountAppend(a, [e], f, c, i);
    assert [e][1..] == [];
  }

  /** When log l2 extends l1, which extends l0, the calls logged after l0 are those up to l1 and those after it. */
  lemma LogExtends(l0: seq<Event>, l1: seq<Event>, l2: seq<Event>)
    requires |l0| <= |l1| <= |l2| && l2[..|l1|] == l1
    ensures forall f, c, i :: RanCount(l2[|l0|..], f, c, i) == RanCount(l1[|l0|..], f, c, i) + RanCount(l2[|l1|..], f, c, i)
  {
    assert l2[|l0|..] == l1[|l0|..] + l2[|l1|..];
    forall f, c, i ensures RanCount(l2[|l0|..], f, c, i) == RanCount(l1[|l0|..], f, c, i) + RanCount(l2[|l1|..], f, c, i) {
      RanCountAppend(l1[|l0|..], l2[|l1|..], f, c, i);
    }
  }

  /**
   * Every task of before either ran (counted in log l) or is in after,
   * beside one added call of (func, context) for each index of [lo, hi).
   */
  ghost predicate RanOrPending(l: seq<Event>, before: seq<Task>, after: seq<Task>, func: int, context: int, lo: int, hi: int) {
    forall f, c, i :: RanCount(l, f, c, i) + PendingCount(after, f, c, i) ==
      PendingCount(before, f, c, i) + (if f == func && c == Pointer(context) && lo <= i < hi then 1 else 0)
  }

  /** Every task of before either ran (counted in log l) or is still in after. */
  ghost predicate RanOrStillQueued(l: seq<Event>, before: seq<Task>, after: seq<Task>) {
    forall f, c, i :: RanCount(l, f, c, i) + PendingCount(after, f, c, i) == PendingCount(before, f, c, i)
  }

  /** A phase that runs nothing and dequeues nothing leaves every task queued. */
  lemma NothingQueuedRan(l: seq<Event>, before: seq<Task>, after: seq<Task>)
    requires l == [] && after == before
    ensures RanOrStillQueued(l, before, after)
  {
  }

  /** A phase that runs nothing and queues nothing changes nothing pending. */
  lemma NothingRan(l: seq<Event>, before: seq<Task>, after: seq<Task>, func: int, context: int, lo: int, hi: int)
    requires l == [] && after == before && hi <= lo
    ensures RanOrPending(l, before, after, func, context, lo, hi)
  {
  }

  /** A loop of one iteration that runs it inline and queues nothing: its one index ran, and nothing else changed. */
  lemma OnlyIterationRan(q: seq<Task>, func: int, context: int, start: int, w: int)
    ensures RanOrPending([Ran(func, Pointer(context), start, w)], q, q, func, context, start, start + 1)
  {
    forall f, c, i ensures RanCount([Ran(func, Pointer(context), start, w)], f, c, i) ==
      if f == func && c == Pointer(context) && start <= i < start + 1 then 1 else 0
    {
      RanCountSplit([], Ran(func, Pointer(context), start, w), [], f, c, i);
    }
  }

  /**
   * The parallel loop's three phases put together: submitting the job
   * (counting the iterations after the first as pending), running the first
   * iteration inline, and helping until what is queued is a suffix of q0.
   * Every iteration of [start, end) either ran or is pending beside what was
   * pending before; when nothing of (func, context) was pending before,
   * every index of the range ran exactly once.
   */
  lemma LoopConserves(l0: seq<Event>, l1: seq<Event>, w: int, l3: seq<Event>, q0: seq<Task>, job: seq<Task>, d: nat,
                      func: int, context: int, start: int, end: int)
    requires start < end && |l0| <= |l1| && d <= |q0|
    requires |l3| > |l1| && l3[..|l1| + 1] == l1 + [Ran(func, Pointer(context), start, w)]
    requires RanOrPending(l1[|l0|..], q0, q0 + job, func, context, start + 1, end)
    requires RanOrStillQueued(l3[|l1| + 1..], q0 + job, q0[d..])
    ensures RanOrPending(l3[|l0|..], q0, q0[d..], func, context, start, end)
  {
    var e := Ran(func, Pointer(context), start, w);
    assert l3[|l0|..] == l1[|l0|..] + [e] + l3[|l1| + 1..];
    forall f, c, i ensures RanCount(l3[|l0|..], f, c, i) ==
      RanCount(l1[|l0|..], f, c, i) + (if Records(e, f, c, i) then 1 else 0) + RanCount(l3[|l1| + 1..], f, c, i)
    {
      RanCountSplit(l1[|l0|..], e, l3[|l1| + 1..], f, c, i);
    }
  }

  /**
   * A loop over [start, end) that leaves a suffix of the tasks queued before
   * it, and after which every task either ran or is pending: when no call of
   * (func, context) was queued before, every index of the range ran exactly
   * once and no other index ran at all.
   */
  lemma LoopRunsEachIndexOnce(l: seq<Event>, q0: seq<Task>, d: nat, func: int, context: int, start: int, end: int)
    requires d <= |q0| && RanOrPending(l, q0, q0[d..], func, context, start, end)
    requires forall t | t in q0 :: Executes(t) != Some((func, Pointer(context)))
    ensures forall i :: RanCount(l, func, Pointer(context), i) == if start <= i < end then 1 else 0
  {
    forall i ensures RanCount(l, func, Pointer(context), i) == if start <= i < end then 1 else 0 {
      NoPending(q0, func, Pointer(context), i);
      PendingCountSuffix(q0, d, func, Pointer(context), i);
    }
  }
}
