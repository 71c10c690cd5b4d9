/**
 * `internal::ParallelSorter` and the `parallel_sort` entry point, read with a
 * single worker: the caller's thread seeds the work list with the whole
 * range and drains it with `process_chunk` until a pop fails. The pool of
 * background threads, the mutexes and the joining are not part of this model.
 */
module ParallelSorting {
  import opened SortSpec
  import opened StdAlgorithms
  import opened WorkList
  import opened Stack

  /** Key of the liveness table (`std::thread::id` in the source). */
  type WorkerId = nat

  /** The identity under which the calling thread records its flag. */
  const Caller: WorkerId := 0

  /**
   * `done()`: scans the liveness table and reports `false` at the first
   * worker whose flag is `false`; otherwise, including on an empty table,
   * reports `true`.
   */
  method Done(threadDone: map<WorkerId, bool>) returns (r: bool)
    ensures r <==> forall w :: w in threadDone ==> threadDone[w]
    ensures threadDone == map[] ==> r
  {
    var unchecked := threadDone.Keys;
    while unchecked != {}
      invariant unchecked <= threadDone.Keys
      invariant forall w :: w in threadDone && w !in unchecked ==> threadDone[w]
      decreases unchecked
    {
      var w :| w in unchecked;
      if !threadDone[w] {
        return false;
      }
      unchecked := unchecked - {w};
    }
    return true;
  }

  /**
   * Recording a worker's flag in a table that differs from `m` at most in
   * that worker's flag gives `m` with just that flag recorded.
   */
  lemma RecordAgain(m: map<WorkerId, bool>, before: map<WorkerId, bool>, w: WorkerId, b: bool)
    requires before == m || before == m[w := false] || before == m[w := true]
    ensures before[w := b] == m[w := b]
  {
    if before != m {
      var c :| before == m[w := c];
    }
  }

  class ParallelSorter {
    /** The sequence the iterators of every range point into. */
    const a: array<int>
    /** `m_synchronized_stack`: the pending ranges. */
    const stack: SynchronizedStack<Range>
    /** `m_thread_done`: per worker, whether its last attempt found no work. */
    var threadDone: map<WorkerId, bool>

    /** Between two calls of `sort`: no work pending and every recorded worker idle. */
    ghost predicate Idle()
      reads this, stack
    {
      stack.contents == [] && forall w :: w in threadDone ==> threadDone[w]
    }

    /** A sorter over `a` with an empty work list and an empty liveness table. */
    constructor (a: array<int>)
      ensures this.a == a && fresh(stack)
      ensures stack.contents == [] && threadDone == map[]
      ensures Idle()
    {
      this.a := a;
      stack := new SynchronizedStack();
      threadDone := map[];
    }

    /**
     * `process_chunk()`: pops a range and reports `false` if there is none,
     * changing nothing. A range of fewer than `Threshold` positions is
     * sorted in place. A larger one has its midpoint fixed by selection and
     * its two sides, without the midpoint, pushed left side first. Only the
     * popped range's positions change, and only by rearrangement.
     */
    method ProcessChunk() returns (worked: bool)
      requires InBounds(stack.contents, a.Length)
      modifies a, stack
      ensures InBounds(stack.contents, a.Length)
      ensures worked <==> old(stack.contents) != []
      ensures !worked ==> stack.contents == old(stack.contents) && a[..] == old(a[..])
      ensures worked ==> ChunkStep(old(a[..]), a[..], old(stack.contents), stack.contents)
      ensures multiset(a[..]) == old(multiset(a[..]))
    {
      var range: Range;
      worked, range := stack.Pop(Range(0, 0));
      if !worked {
        return;
      }
      ghost var pending, rest := old(stack.contents), stack.contents;
      assert range == pending[|pending| - 1] && rest == pending[..|pending| - 1];
      var size := range.last - range.first;
      if size < Threshold {
        InsertionSort(a, range.first, range.last);
        return;
      }
      var mid := range.first + size / 2;
      assert mid == Midpoint(range);
      NthElement(a, range.first, mid, range.last);
      stack.Push(Range(range.first, mid));
      stack.Push(Range(mid + 1, range.last));
      assert stack.contents == rest + [Range(range.first, mid), Range(mid + 1, range.last)];
    }

    /**
     * `do_sort()` as run by the single worker `self` while every other
     * recorded worker is idle: repeats `process_chunk` and records the
     * outcome under `self` until `done()` holds. That happens exactly when
     * a pop fails, and then every range that was pending has been sorted:
     * the sequence is the `target` the invariant names. The loop ends
     * because each step removes a range, or replaces one by two halves
     * holding one position fewer.
     */
    method DoSort(self: WorkerId, ghost target: seq<int>)
      requires Inv(a[..], target, stack.contents)
      requires forall w :: w in threadDone && w != self ==> threadDone[w]
      modifies this, a, stack
      ensures a[..] == target
      ensures stack.contents == []
      ensures threadDone == old(threadDone)[self := true]
    {
      var finished := false;
      while !finished
        invariant Inv(a[..], target, stack.contents)
        invariant threadDone == old(threadDone) || threadDone == old(threadDone)[self := false] ||
                  threadDone == old(threadDone)[self := true]
        invariant finished ==> stack.contents == [] && threadDone == old(threadDone)[self := true]
        decreases if finished then 0 else 1, TotalSize(stack.contents), |stack.contents|
      {
        ghost var s, pending := a[..], stack.contents;
        var worked := ProcessChunk();
        ghost var s', pending' := a[..], stack.contents;
        ghost var before := threadDone;
        if worked {
          StepKeepsInv(s, s', target, pending, pending');
          StepShrinksWork(s, s', pending, pending');
          threadDone := threadDone[self := false];
          RecordAgain(old(threadDone), before, self, false);
        } else {
          threadDone := threadDone[self := true];
          RecordAgain(old(threadDone), before, self, true);
        }
        assert a[..] == s' && stack.contents == pending';
        assert !threadDone[self] ==> worked;
        finished := Done(threadDone);
      }
      InvFinish(a[..], target);
    }

    /**
     * `sort(begin, end)`: pushes [begin, end) as the only pending range and
     * runs the worker loop on the calling thread. Afterwards [begin, end)
     * holds the sorted rearrangement of its old contents, the rest of the
     * sequence is untouched, and the sorter is idle again.
     */
    method Sort(begin: nat, end: nat)
      requires begin <= end <= a.Length
      requires Idle()
      modifies this, a, stack
      ensures Idle()
      ensures threadDone == old(threadDone)[Caller := true]
      ensures a[begin..end] == SortSeq(old(a[begin..end]))
      ensures a[..begin] == old(a[..begin]) && a[end..] == old(a[end..])
    {
      stack.Push(Range(begin, end));
      assert stack.contents == [Range(begin, end)];
      ghost var s := a[..];
      ghost var target := SortedWithin(s, begin, end);
      InvStart(s, begin, end);
      DoSort(Caller, target);
      assert a[begin..end] == target[begin..end];
      assert a[..begin] == target[..begin] && a[end..] == target[end..];
    }
  }

  /**
   * `parallel_sort(begin, end)`: sorts [begin, end) of `a` in place. The
   * result is what a sequential sort of the same range gives: sorted, a
   * rearrangement of the old contents, and nothing outside the range moves.
   */
  method ParallelSort(a: array<int>, begin: nat, end: nat)
    requires begin <= end <= a.Length
    modifies a
    ensures a[begin..end] == SortSeq(old(a[begin..end]))
    ensures Sorted(a[begin..end]) && multiset(a[begin..end]) == old(multiset(a[begin..end]))
    ensures a[..begin] == old(a[..begin]) && a[end..] == old(a[end..])
  {
    var sorter := new ParallelSorter(a);
    sorter.Sort(begin, end);
  }
}
