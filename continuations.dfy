/**
 * The continuation table as values: the record kept per slot, the
 * lookups a versioned handle goes through, and the record updates done by
 * allocation and by the completion path.
 */
module Continuations {
  import opened Options
  import opened Bits
  import opened Handles

  /** One slot: the completion callback and its context (opaque), the user's job id, the slot's version and the count of unfinished tasks. */
  datatype TaskContinuation = TaskContinuation(
    onCompleted: Option<int>, onCompletedContext: int, userId: nat, version: int, remainingTaskCounter: int)

  /** A record as the buffer clear leaves it: every field zero. */
  const Cleared: TaskContinuation := TaskContinuation(None, 0, 0, 0, 0)

  /** The 32-bit fields of a record hold 32-bit values. */
  predicate WellFormed(c: TaskContinuation) {
    IsInt32(c.version) && IsInt32(c.remainingTaskCounter)
  }

  /** The indices 0 .. n - 1, the index pool of a fresh table of n slots. */
  function AllIndices(n: nat): (r: set<nat>)
    ensures forall k: nat :: k in r <==> k < n
  {
    if n == 0 then {} else AllIndices(n - 1) + {n - 1}
  }

  /**
   * The slot a handle designates, or None (a null pointer) for a handle that
   * was never initialized, points past the table, or carries a version
   * other than the slot's: a stale handle is refused rather than aliased.
   */
  function GetContinuation(table: seq<TaskContinuation>, h: ContinuationHandle): (r: Option<nat>)
    ensures r.Some? <==> h.Initialized() && h.Index() < |table| && table[h.Index()].version == h.Version()
    ensures r.Some? ==> r.value == h.Index()
  {
    if h.Index() >= |table| || !h.Initialized() then None
    else if table[h.Index()].version != h.Version() then None
    else Some(h.Index())
  }

  /**
   * Whether the job behind a handle is finished: the slot has moved past the
   * handle's version (it was reused) or no task remains. An uninitialized or
   * out-of-range handle is reported as not complete.
   */
  function IsComplete(table: seq<TaskContinuation>, h: ContinuationHandle): (r: bool)
    ensures r ==> h.Initialized() && h.Index() < |table|
    ensures h.Initialized() && h.Index() < |table| ==>
      (r <==> table[h.Index()].version > h.Version() || table[h.Index()].remainingTaskCounter == 0)
  {
    if h.Index() >= |table| || !h.Initialized() then false
    else
      var c := table[h.Index()];
      c.version > h.Version() || c.remainingTaskCounter == 0
  }

  /** The record allocation installs: new callback, context and id, the version bumped (wrapping at 32 bits), the counter set to the task count. */
  function Allocated(c: TaskContinuation, taskCount: int, userId: nat, onCompleted: Option<int>, onCompletedContext: int): (r: TaskContinuation)
    requires WellFormed(c) && IsInt32(taskCount)
    ensures WellFormed(r)
    ensures r.version == Inc32(c.version) && r.remainingTaskCounter == taskCount
    ensures r.userId == userId && r.onCompleted == onCompleted && r.onCompletedContext == onCompletedContext
  {
    TaskContinuation(onCompleted, onCompletedContext, userId, Inc32(c.version), taskCount)
  }

  /** The record after one task reported completion (an interlocked decrement). */
  function Decremented(c: TaskContinuation): (r: TaskContinuation)
    requires WellFormed(c)
    ensures WellFormed(r) && r.version == c.version
    ensures c.remainingTaskCounter > INT32_MIN ==> r.remainingTaskCounter == c.remainingTaskCounter - 1
    ensures r == c.(remainingTaskCounter := r.remainingTaskCounter)
  {
    c.(remainingTaskCounter := Dec32(c.remainingTaskCounter))
  }

  /** A freshly allocated slot is reachable through the handle it returns, and that job is complete only if it has no task. */
  lemma AllocatedHandleIsLive(table: seq<TaskContinuation>, k: nat, taskCount: int, userId: nat, onCompleted: Option<int>, ctx: int)
    requires k < |table| && k < 0x1_0000_0000 && WellFormed(table[k]) && IsInt32(taskCount)
    requires 0 <= table[k].version < INT32_MAX
    ensures var table' := table[k := Allocated(table[k], taskCount, userId, onCompleted, ctx)];
      var h := New(k, Inc32(table[k].version));
      GetContinuation(table', h) == Some(k) && (IsComplete(table', h) <==> taskCount == 0)
  {
  }

  /**
   * Reusing a slot makes the handles of its previous job dead: lookup fails
   * and the old job reads as complete, so the new job is never aliased.
   */
  lemma StaleHandleIsDetected(table: seq<TaskContinuation>, h: ContinuationHandle, taskCount: int, userId: nat, onCompleted: Option<int>, ctx: int)
    requires GetContinuation(table, h).Some?
    requires WellFormed(table[h.Index()]) && IsInt32(taskCount) && table[h.Index()].version < INT32_MAX
    ensures var k := h.Index();
      var table' := table[k := Allocated(table[k], taskCount, userId, onCompleted, ctx)];
      GetContinuation(table', h) == None && IsComplete(table', h)
  {
  }

  /**
   * When a slot's version has reached the int32 maximum the bump wraps it to
   * the minimum, and the handle allocation returns is dead from the start:
   * its 31-bit version is 0, not the stored negative version. Its lookup
   * yields null, which the completion wrapper dereferences without a check,
   * and the completion test reads false for as long as the counter is not 0.
   */
  lemma WrappedVersionGivesDeadHandle(table: seq<TaskContinuation>, k: nat, taskCount: int, userId: nat, onCompleted: Option<int>, ctx: int)
    requires k < |table| && k < 0x1_0000_0000 && WellFormed(table[k]) && IsInt32(taskCount)
    requires table[k].version == INT32_MAX && taskCount != 0
    ensures var table' := table[k := Allocated(table[k], taskCount, userId, onCompleted, ctx)];
      var h := New(k, Inc32(table[k].version));
      GetContinuation(table', h) == None && !IsComplete(table', h)
  {
  }

  /** The table after m completions reported to slot k. */
  function DecrementedTimes(table: seq<TaskContinuation>, k: nat, m: nat): (r: seq<TaskContinuation>)
    requires k < |table| && WellFormed(table[k])
    ensures |r| == |table| && WellFormed(r[k])
    decreases m
  {
    if m == 0 then table
    else
      var before := DecrementedTimes(table, k, m - 1);
      before[k := Decremented(before[k])]
  }

  /**
   * A job allocated with n > 0 tasks becomes complete on exactly its n-th
   * reported completion, and not before; the handle stays valid throughout.
   */
  lemma {:induction false} CompleteAfterExactlyCount(table: seq<TaskContinuation>, h: ContinuationHandle, m: nat)
    requires GetContinuation(table, h).Some? && WellFormed(table[h.Index()])
    requires 0 <= m <= table[h.Index()].remainingTaskCounter
    ensures var r := DecrementedTimes(table, h.Index(), m);
      r[h.Index()].remainingTaskCounter == table[h.Index()].remainingTaskCounter - m
      && GetContinuation(r, h).Some?
      && (IsComplete(r, h) <==> m == table[h.Index()].remainingTaskCounter)
  {
    if m > 0 {
      CompleteAfterExactlyCount(table, h, m - 1);
    }
  }

  /** ContinuationCount after n completions, starting from 0: allocation never increments it, completion decrements with 32-bit wrap. */
  function CountAfterCompletions(n: nat): (r: int)
    ensures IsInt32(r)
  {
    if n == 0 then 0 else Dec32(CountAfterCompletions(n - 1))
  }

  /**
   * The allocation guard `ContinuationCount >= capacity` as written: through
   * the first 2^31 completions the count only goes down from 0, so for any
   * non-empty table the guard never reports Full; one completion later the
   * count has wrapped to the int32 maximum and every table reads as Full.
   */
  lemma {:induction false} CountGuardAsWritten(n: nat, capacity: nat)
    requires 1 <= capacity <= INT32_MAX
    ensures n <= 0x8000_0000 ==> CountAfterCompletions(n) + n == 0 && CountAfterCompletions(n) < capacity
    ensures n == 0x8000_0001 ==> CountAfterCompletions(n) >= capacity
  {
    if n > 0 && n <= 0x8000_0001 {
      CountGuardAsWritten(n - 1, capacity);
    }
  }

  /** Two tables of the same size whose slots carry the same versions (only counters and payloads may differ). */
  predicate SameVersions(table: seq<TaskContinuation>, table': seq<TaskContinuation>) {
    |table'| == |table| && forall j :: 0 <= j < |table| ==> table'[j].version == table[j].version
  }
}
