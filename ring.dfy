/**
 * Index arithmetic of the task ring: logical indices grow without bound and
 * a logical index x lives in slot x mod capacity, computed as x & mask.
 */
module Ring {
  import opened Bits

  /** Slot of logical index start + i, for an offset i below the capacity. */
  lemma SlotOffset(start: nat, i: nat, n: nat)
    requires n > 0 && i < n
    ensures (start + i) % n == if start % n + i < n then start % n + i else start % n + i - n
  {
    var q, r := start / n, start % n;
    assert start == q * n + r;
    if r + i < n {
      DivModUnique(start + i, q, r + i, n);
    } else {
      DivModUnique(start + i, q + 1, r + i - n, n);
    }
  }

  /** How far slot k lies past the slot of logical index start, going forward around the ring. */
  lemma Distance(k: int, start: nat, n: nat)
    requires n > 0 && 0 <= k < n
    ensures (k - start) % n == if k >= start % n then k - start % n else k - start % n + n
  {
    var q, r := start / n, start % n;
    assert start == q * n + r;
    if k >= r {
      DivModUnique(k - start, -q, k - r, n);
    } else {
      DivModUnique(k - start, -q - 1, k - r + n, n);
    }
  }

  /** The slot of a logical index within one lap behind start lies that far behind it on the ring. */
  lemma Behind(j: nat, start: nat, n: nat)
    requires n > 0 && start - n <= j < start
    ensures (j % n - start) % n == j - start + n
  {
    var q, r := j / n, j % n;
    assert j == q * n + r;
    DivModUnique(r - start, -q - 1, j - start + n, n);
  }

  /**
   * The one-block test of an enqueue's copy as written: the wrapped end slot
   * lies past the wrapped start slot exactly when the batch ends before the
   * ring's last slot. A batch whose last task lands in the last slot takes
   * the two-block branch, although it fits in one block.
   */
  lemma SingleRegion(start: nat, len: nat, n: nat)
    requires n > 0 && 1 <= len <= n
    ensures (start + len) % n > start % n <==> start % n + len < n
  {
    if len < n {
      SlotOffset(start, len, n);
    } else {
      DivModUnique(start + n, start / n + 1, start % n, n);
    }
  }

  /**
   * The two-block branch as written takes the batch's first n - start % n
   * tasks for the first block and then forms a reference to the task at that
   * index, where the second block starts. The branch is taken with that
   * index at or past the batch's end exactly when the batch ends on the
   * ring's last slot; the index is then the batch's length, one past its
   * last task. A full ring's worth from slot 0 and a single task (or stop
   * command) written to the last slot are such batches.
   */
  lemma SecondBlockPastBatch(start: nat, len: nat, n: nat)
    requires n > 0 && 1 <= len <= n
    ensures (!((start + len) % n > start % n) && n - start % n >= len) <==> start % n + len == n
    ensures start % n + len == n ==> !((start + len) % n > start % n) && n - start % n == len
  {
    SingleRegion(start, len, n);
  }

  /**
   * The corrected one-block test: the wrapped end slot lies past the wrapped
   * start slot or is slot 0. It holds exactly when the batch fits before the
   * ring's end, so in the two-block branch the second block starts inside
   * the batch.
   */
  lemma SingleRegionCorrected(start: nat, len: nat, n: nat)
    requires n > 0 && 1 <= len <= n
    ensures ((start + len) % n > start % n || (start + len) % n == 0) <==> start % n + len <= n
  {
    SingleRegion(start, len, n);
    if start % n + len == n {
      DivModUnique(start + len, start / n + 1, 0, n);
    } else if start % n + len > n {
      if len < n {
        SlotOffset(start, len, n);
      } else {
        DivModUnique(start + n, start / n + 1, start % n, n);
      }
    }
  }

  /** Destination offset of the first block copy, masked the way the dequeue's read is: a slot of the ring. */
  function CopyDestination(taskStartIndex: nat, taskMask: nat): (d: nat)
    requires IsPow2(taskMask + 1)
    ensures d < taskMask + 1 && d == taskStartIndex % (taskMask + 1)
  {
    MaskIsMod(taskStartIndex, TrailingZeroCount(taskMask + 1));
    And(taskStartIndex, taskMask)
  }

  /**
   * Destination offset of the first block copy of an enqueue, as written:
   * the unmasked logical start index. It agrees with the slot the dequeue
   * reads only during the ring's first lap.
   */
  function UnmaskedCopyDestination(taskStartIndex: nat, taskMask: nat): (d: nat)
    requires IsPow2(taskMask + 1)
    ensures d == CopyDestination(taskStartIndex, taskMask) <==> taskStartIndex <= taskMask
  {
    assert taskStartIndex <= taskMask ==> taskStartIndex % (taskMask + 1) == taskStartIndex by {
      if taskStartIndex <= taskMask {
        DivModUnique(taskStartIndex, 0, taskStartIndex, taskMask + 1);
      }
    }
    taskStartIndex
  }

  /**
   * Once the ring has gone round once (the next enqueue starts at logical
   * index capacity), the unmasked destination lies outside a buffer of
   * that capacity, while the slot the dequeue reads for that index is 0.
   */
  lemma UnmaskedDestinationLeavesBuffer(capacity: nat)
    requires IsPow2(capacity)
    ensures UnmaskedCopyDestination(capacity, capacity - 1) >= capacity
    ensures CopyDestination(capacity, capacity - 1) == 0
  {
    DivModUnique(capacity, 1, 0, capacity);
  }

  /**
   * ring' is ring with batch written at logical indices [start, start + |batch|):
   * task i in slot (start + i) mod |ring|, every other slot unchanged.
   */
  ghost predicate PlacedAt<T>(ring: seq<T>, ring': seq<T>, start: nat, batch: seq<T>) {
    && |ring| > 0 && |ring'| == |ring|
    && (forall i :: 0 <= i < |batch| ==> ring'[(start + i) % |ring|] == batch[i])
    && (forall k :: 0 <= k < |ring| && (k - start) % |ring| >= |batch| ==> ring'[k] == ring[k])
  }

  /** The logical indices [lo, hi) of a ring, read slot by slot. */
  function Window<T>(ring: seq<T>, lo: nat, hi: nat): (w: seq<T>)
    requires |ring| > 0 && lo <= hi
    ensures |w| == hi - lo
  {
    seq(hi - lo, i requires 0 <= i < hi - lo => ring[(lo + i) % |ring|])
  }

  /** Element i of a window is the ring slot of logical index lo + i. */
  lemma WindowAt<T>(ring: seq<T>, lo: nat, hi: nat, i: nat)
    requires |ring| > 0 && lo <= hi && i < hi - lo
    ensures Window(ring, lo, hi)[i] == ring[(lo + i) % |ring|]
  {
  }

  /** Advancing the front index drops the first element of the window. */
  lemma WindowAdvance<T>(ring: seq<T>, lo: nat, hi: nat)
    requires |ring| > 0 && lo < hi
    ensures Window(ring, lo + 1, hi) == Window(ring, lo, hi)[1..]
  {
  }

  /**
   * Writing a batch at logical indices [start, start + |batch|) slot by slot,
   * leaving every other slot alone, appends the batch to a window [lo, start)
   * as long as the window and the batch together fit in the ring.
   */
  lemma WindowAfterWrite<T>(ring: seq<T>, ring': seq<T>, lo: nat, start: nat, batch: seq<T>)
    requires PlacedAt(ring, ring', start, batch) && lo <= start && start + |batch| - lo <= |ring|
    ensures Window(ring', lo, start + |batch|) == Window(ring, lo, start) + batch
  {
    var n := |ring|;
    var w, w' := Window(ring, lo, start), Window(ring', lo, start + |batch|);
    forall i | 0 <= i < |w'| ensures w'[i] == (w + batch)[i] {
      WindowAt(ring', lo, start + |batch|, i);
      if i < start - lo {
        WindowAt(ring, lo, start, i);
        Behind(lo + i, start, n);
        assert ((lo + i) % n - start) % n >= |batch|;
      } else {
        assert lo + i == start + (i - (start - lo));
      }
    }
  }

  /**
   * The enqueue's copy: the first c1 = min(|batch|, n - start % n) tasks go to
   * slots start % n onwards, the rest to slots 0 onwards, every other slot
   * is untouched. Then task i sits in slot (start + i) % n and the slots
   * outside the batch's range are untouched.
   */
  lemma TwoRegionPlacement<T>(ring: seq<T>, ring': seq<T>, start: nat, batch: seq<T>, c1: nat)
    requires |ring| > 0 && |ring'| == |ring| && |batch| <= |ring|
    requires c1 == if |batch| < |ring| - start % |ring| then |batch| else |ring| - start % |ring|
    requires forall k :: start % |ring| <= k < start % |ring| + c1 ==> ring'[k] == batch[k - start % |ring|]
    requires forall k :: 0 <= k < |batch| - c1 ==> ring'[k] == batch[k + c1]
    requires forall k :: 0 <= k < |ring| && !(start % |ring| <= k < start % |ring| + c1) && !(k < |batch| - c1) ==>
      ring'[k] == ring[k]
    ensures PlacedAt(ring, ring', start, batch)
  {
    var n := |ring|;
    forall i | 0 <= i < |batch| ensures ring'[(start + i) % n] == batch[i] {
      SlotOffset(start, i, n);
    }
    forall k | 0 <= k < n && (k - start) % n >= |batch| ensures ring'[k] == ring[k] {
      Distance(k, start, n);
    }
  }
}
