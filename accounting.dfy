/**
 * Bookkeeping that ties queued completion tasks to the continuation table.
 * The completion wrapper dereferences the slot its handle designates
 * without a null check, so running it is defined only while that handle is
 * live and the slot's counter covers every completion task still
 * outstanding for it. These predicates state that, and the lemmas show
 * that dequeuing, running, enqueuing and allocating keep it.
 */
module Accounting {
  import opened Options
  import opened Bits
  import opened Handles
  import opened Tasks
  import opened Continuations

  /** A handle that reaches an allocated slot (not in the free index pool) carrying the slot's version. */
  predicate Live(table: seq<TaskContinuation>, pool: set<nat>, h: ContinuationHandle) {
    GetContinuation(table, h).Some? && h.Index() !in pool
  }

  /**
   * Every completion task of q has a wrapped context with a live handle, and
   * every allocated slot's counter is at least the number of completion
   * tasks of q that report to it.
   */
  predicate Accounted(q: seq<Task>, table: seq<TaskContinuation>, pool: set<nat>) {
    && (forall t | t in q && t.func.RunAndMarkAsComplete? ::
          t.context.Wrapped? && Live(table, pool, t.context.wrapper.continuation))
    && (forall k: nat | k < |table| && k !in pool :: table[k].remainingTaskCounter >= Refs(q, k))
  }

  /** How much of slot k's counter is owed to tasks outside q. */
  function Slack(q: seq<Task>, table: seq<TaskContinuation>, k: nat): int
    requires k < |table|
  {
    table[k].remainingTaskCounter - Refs(q, k)
  }

  /** Running a plain task (a user function) leaves the accounting of the others intact. */
  lemma PlainRunPreserves(a: seq<Task>, t: Task, b: seq<Task>, table: seq<TaskContinuation>, pool: set<nat>)
    requires Accounted(a + [t] + b, table, pool) && !t.func.RunAndMarkAsComplete?
    ensures Accounted(a + b, table, pool)
    ensures forall k: nat | k < |table| :: Slack(a + b, table, k) == Slack(a + [t] + b, table, k)
  {
    forall k: nat ensures Refs(a + b, k) == Refs(a + [t] + b, k) {
      RefsAppend(a, b, k);
      RefsAppend(a + [t], b, k);
      RefsAppend(a, [t], k);
      assert [t][1..] == [];
    }
    assert forall u | u in a + b :: u in a + [t] + b;
  }

  /**
   * Running a completion task t: its slot k is live with a counter of at
   * least 1; after the decrement, and after returning k to the pool when the
   * counter reached 0, the remaining tasks are still accounted for and every
   * slot's slack is unchanged.
   */
  lemma CompletionRunPreserves(a: seq<Task>, t: Task, b: seq<Task>, table: seq<TaskContinuation>, pool: set<nat>)
    requires Accounted(a + [t] + b, table, pool) && IsCompletionTask(t)
    requires forall j: nat | j < |table| :: WellFormed(table[j])
    ensures var k := t.context.wrapper.continuation.Index();
      GetContinuation(table, t.context.wrapper.continuation) == Some(k) && k !in pool
      && table[k].remainingTaskCounter >= 1
    ensures var k := t.context.wrapper.continuation.Index();
      var table' := table[k := Decremented(table[k])];
      var pool' := if table'[k].remainingTaskCounter == 0 then pool + {k} else pool;
      Accounted(a + b, table', pool')
      && (forall j: nat | j < |table| :: Slack(a + b, table', j) == Slack(a + [t] + b, table, j))
  {
    var h := t.context.wrapper.continuation;
    var k := h.Index();
    assert t in a + [t] + b;
    var q, q' := a + [t] + b, a + b;
    forall j: nat ensures Refs(q', j) + (if RefersTo(t, j) then 1 else 0) == Refs(q, j) {
      RefsAppend(a, b, j);
      RefsAppend(a + [t], b, j);
      RefsAppend(a, [t], j);
      assert [t][1..] == [];
    }
    assert Refs(q, k) >= 1;
    var table' := table[k := Decremented(table[k])];
    var pool' := if table'[k].remainingTaskCounter == 0 then pool + {k} else pool;
    assert table'[k].remainingTaskCounter == table[k].remainingTaskCounter - 1;
    if table'[k].remainingTaskCounter == 0 {
      assert Refs(q', k) == 0;
      NoRefs(q', k);
    }
    forall u | u in q' && u.func.RunAndMarkAsComplete?
      ensures u.context.Wrapped? && Live(table', pool', u.context.wrapper.continuation)
    {
      assert u in q;
    }
  }

  /**
   * Allocating slot k from the pool keeps the accounting: no outstanding task
   * refers to a free slot, and the new counter (a task count of at least 0)
   * covers none. Every other slot's slack is unchanged.
   */
  lemma AllocationPreserves(q: seq<Task>, table: seq<TaskContinuation>, pool: set<nat>, k: nat, c: TaskContinuation)
    requires Accounted(q, table, pool) && k in pool && k < |table|
    requires c.remainingTaskCounter >= 0
    ensures Refs(q, k) == 0
    ensures Accounted(q, table[k := c], pool - {k})
    ensures forall j: nat | j < |table| && j != k :: Slack(q, table[k := c], j) == Slack(q, table, j)
  {
    RefsOfFreeSlot(q, table, pool, k);
  }

  /** A free slot has no outstanding completion task reporting to it. */
  lemma {:induction false} RefsOfFreeSlot(q: seq<Task>, table: seq<TaskContinuation>, pool: set<nat>, k: nat)
    requires forall t | t in q && t.func.RunAndMarkAsComplete? ::
      t.context.Wrapped? && Live(table, pool, t.context.wrapper.continuation)
    requires k in pool
    ensures Refs(q, k) == 0
  {
    if q != [] {
      assert q[0] in q;
      assert forall t | t in q[1..] :: t in q;
      RefsOfFreeSlot(q[1..], table, pool, k);
    }
  }

  /** Appending tasks other than completion tasks (user functions, the stop command) keeps the accounting and every slack. */
  lemma PlainTasksAppend(q: seq<Task>, b: seq<Task>, table: seq<TaskContinuation>, pool: set<nat>)
    requires Accounted(q, table, pool)
    requires forall t | t in b :: !t.func.RunAndMarkAsComplete?
    ensures Accounted(q + b, table, pool)
    ensures forall k: nat | k < |table| :: Slack(q + b, table, k) == Slack(q, table, k)
  {
    forall k: nat ensures Refs(b, k) == 0 {
      PlainNoRefs(b, k);
    }
    forall k: nat ensures Refs(q + b, k) == Refs(q, k) {
      RefsAppend(q, b, k);
    }
  }

  lemma {:induction false} PlainNoRefs(b: seq<Task>, k: nat)
    requires forall t | t in b :: !t.func.RunAndMarkAsComplete?
    ensures Refs(b, k) == 0
  {
    if b != [] {
      assert b[0] in b;
      assert forall t | t in b[1..] :: t in b;
      PlainNoRefs(b[1..], k);
    }
  }

  /**
   * Queuing a new job: tasks wrapped to report to a live handle h whose slot
   * no outstanding task references yet and whose counter is the job's size.
   * The job is then accounted for with no slack at its slot, and every other
   * slot's slack is unchanged.
   */
  lemma JobAppend(q: seq<Task>, h: ContinuationHandle, ts: seq<Task>, table: seq<TaskContinuation>, pool: set<nat>)
    requires Accounted(q, table, pool) && Live(table, pool, h)
    requires forall t | t in ts :: t.func.Call?
    requires Refs(q, h.Index()) == 0 && table[h.Index()].remainingTaskCounter == |ts|
    ensures Accounted(q + WrapAll(h, ts), table, pool)
    ensures Slack(q + WrapAll(h, ts), table, h.Index()) == 0
    ensures forall j: nat | j < |table| && j != h.Index() :: Slack(q + WrapAll(h, ts), table, j) == Slack(q, table, j)
  {
    var job := WrapAll(h, ts);
    forall j: nat ensures Refs(q + job, j) == Refs(q, j) + (if j == h.Index() then |ts| else 0) {
      RefsAppend(q, job, j);
      WrapAllRefs(h, ts, j);
    }
    forall t | t in q + job && t.func.RunAndMarkAsComplete?
      ensures t.context.Wrapped? && Live(table, pool, t.context.wrapper.continuation)
    {
      if t !in q {
        var j :| 0 <= j < |job| && job[j] == t;
      }
    }
  }
}
