/**
 * Verified stand-ins for the two library algorithms the sorter calls on a
 * sub-range of the caller's sequence: `std::sort` (here an insertion sort)
 * and `std::nth_element` (here a quickselect over a Lomuto partition).
 * Only their contracts matter to the rest of the model; the bodies exist so
 * that the contracts are proved rather than assumed.
 */
module StdAlgorithms {
  import opened SortSpec

  /** `t` agrees with `s` at every position outside [first, last). */
  ghost predicate SameOutside(s: seq<int>, t: seq<int>, first: int, last: int) {
    |t| == |s| && forall i :: 0 <= i < |s| && !(first <= i < last) ==> t[i] == s[i]
  }

  /** `t` is `s` with the elements of [first, last) rearranged among themselves. */
  ghost predicate PermutedWithin(s: seq<int>, t: seq<int>, first: int, last: int) {
    0 <= first <= last <= |s| &&
    SameOutside(s, t, first, last) &&
    multiset(t[first..last]) == multiset(s[first..last])
  }

  /** Every element of [first, k) is at most every element of [k, last). */
  ghost predicate SplitAt(s: seq<int>, first: int, k: int, last: int)
    requires 0 <= first && last <= |s|
  {
    forall i, j :: first <= i < k <= j < last ==> s[i] <= s[j]
  }

  /** The elements of `s` are those before `i`, those of [i, j) and those from `j` on. */
  lemma MultisetSplit(s: seq<int>, i: int, j: int)
    requires 0 <= i <= j <= |s|
    ensures multiset(s) == multiset(s[..i]) + multiset(s[i..j]) + multiset(s[j..])
  {
    assert s == s[..i] + s[i..j] + s[j..];
  }

  /** A change confined to [first, last) that keeps all elements keeps those of [first, last). */
  lemma PermutedWithinFromWhole(s: seq<int>, t: seq<int>, first: int, last: int)
    requires 0 <= first <= last <= |s|
    requires SameOutside(s, t, first, last) && multiset(t) == multiset(s)
    ensures PermutedWithin(s, t, first, last)
  {
    MultisetSplit(s, first, last);
    MultisetSplit(t, first, last);
    assert s[..first] == t[..first];
    assert s[last..] == t[last..];
    var outside := multiset(s[..first]) + multiset(s[last..]);
    assert multiset(s[first..last]) == multiset(s) - outside;
    assert multiset(t[first..last]) == multiset(t) - outside;
  }

  /** Exchanges two elements of `a`. */
  method Swap(a: array<int>, i: nat, j: nat)
    requires i < a.Length && j < a.Length
    modifies a
    ensures a[i] == old(a[j]) && a[j] == old(a[i])
    ensures forall k :: 0 <= k < a.Length && k != i && k != j ==> a[k] == old(a[k])
    ensures multiset(a[..]) == old(multiset(a[..]))
  {
    a[i], a[j] := a[j], a[i];
    assert a[..] == old(a[..])[i := old(a[j])][j := old(a[i])];
  }

  /**
   * One step of insertion sort: with [first, i) sorted, moves `a[i]` down
   * past every larger element, so that [first, i] is sorted.
   */
  method InsertInto(a: array<int>, first: nat, i: nat)
    requires first <= i < a.Length
    requires forall p, q :: first <= p < q < i ==> a[p] <= a[q]
    modifies a
    ensures forall p, q :: first <= p < q <= i ==> a[p] <= a[q]
    ensures multiset(a[..]) == old(multiset(a[..]))
    ensures forall k :: 0 <= k < a.Length && !(first <= k <= i) ==> a[k] == old(a[k])
  {
    var j := i;
    while j > first && a[j - 1] > a[j]
      invariant first <= j <= i
      invariant forall p, q :: first <= p < q <= i && p != j && q != j ==> a[p] <= a[q]
      invariant forall q :: j < q <= i ==> a[j] < a[q]
      invariant multiset(a[..]) == old(multiset(a[..]))
      invariant forall k :: 0 <= k < a.Length && !(first <= k <= i) ==> a[k] == old(a[k])
    {
      Swap(a, j - 1, j);
      j := j - 1;
    }
  }

  /**
   * Stand-in for `std::sort(first, last)`: the range becomes a sorted
   * rearrangement of itself, hence the reference sort of its old contents,
   * and nothing outside it changes.
   */
  method InsertionSort(a: array<int>, first: nat, last: nat)
    requires first <= last <= a.Length
    modifies a
    ensures PermutedWithin(old(a[..]), a[..], first, last)
    ensures multiset(a[..]) == old(multiset(a[..]))
    ensures Sorted(a[first..last])
    ensures a[first..last] == SortSeq(old(a[first..last]))
  {
    if first < last {
      var i := first + 1;
      while i < last
        invariant first < i <= last
        invariant forall p, q :: first <= p < q < i ==> a[p] <= a[q]
        invariant multiset(a[..]) == old(multiset(a[..]))
        invariant forall k :: 0 <= k < a.Length && !(first <= k < last) ==> a[k] == old(a[k])
      {
        InsertInto(a, first, i);
        i := i + 1;
      }
    }
    assert SameOutside(old(a[..]), a[..], first, last);
    PermutedWithinFromWhole(old(a[..]), a[..], first, last);
    SortSeqUnique(old(a[first..last]), a[first..last]);
  }

  /**
   * Lomuto partition of [lo, hi) around its last element: afterwards the
   * pivot sits at `p`, nothing before it in the range is above it and
   * nothing after it is below it.
   */
  method Partition(a: array<int>, lo: nat, hi: nat) returns (p: nat)
    requires lo < hi <= a.Length
    modifies a
    ensures lo <= p < hi
    ensures forall i :: lo <= i < p ==> a[i] <= a[p]
    ensures forall i :: p < i < hi ==> a[p] <= a[i]
    ensures multiset(a[..]) == old(multiset(a[..]))
    ensures SameOutside(old(a[..]), a[..], lo, hi)
  {
    var pivot := a[hi - 1];
    p := lo;
    var i := lo;
    while i < hi - 1
      invariant lo <= p <= i <= hi - 1
      invariant a[hi - 1] == pivot
      invariant forall x :: lo <= x < p ==> a[x] < pivot
      invariant forall x :: p <= x < i ==> pivot <= a[x]
      invariant multiset(a[..]) == old(multiset(a[..]))
      invariant SameOutside(old(a[..]), a[..], lo, hi)
    {
      if a[i] < pivot {
        Swap(a, i, p);
        p := p + 1;
      }
      i := i + 1;
    }
    Swap(a, p, hi - 1);
  }

  /**
   * Partitioning [lo, hi) inside [first, last) keeps the splits at `lo` and
   * `hi` and adds splits just before and just after the pivot.
   */
  lemma PartitionKeepsSplits(s: seq<int>, t: seq<int>, first: nat, lo: nat, hi: nat, last: nat, p: nat)
    requires first <= lo <= p < hi <= last <= |s|
    requires SplitAt(s, first, lo, last) && SplitAt(s, first, hi, last)
    requires PermutedWithin(s, t, lo, hi)
    requires forall i :: lo <= i < p ==> t[i] <= t[p]
    requires forall i :: p < i < hi ==> t[p] <= t[i]
    ensures SplitAt(t, first, lo, last) && SplitAt(t, first, hi, last)
    ensures SplitAt(t, first, p, last) && SplitAt(t, first, p + 1, last)
  {
    forall i | first <= i < lo
      ensures AllAtLeast(t[lo..hi], t[i])
    {
      assert AllAtLeast(s[lo..hi], s[i]);
      PermutationKeepsBounds(s[lo..hi], t[lo..hi], s[i]);
    }
    forall j | hi <= j < last
      ensures AllAtMost(t[lo..hi], t[j])
    {
      assert AllAtMost(s[lo..hi], s[j]);
      PermutationKeepsBounds(s[lo..hi], t[lo..hi], s[j]);
    }
    assert SplitAt(t, first, lo, last) by {
      forall i, j | first <= i < lo <= j < last
        ensures t[i] <= t[j]
      {
        if j < hi {
          assert t[j] == t[lo..hi][j - lo];
        }
      }
    }
    assert SplitAt(t, first, hi, last) by {
      forall i, j | first <= i < hi <= j < last
        ensures t[i] <= t[j]
      {
        if lo <= i {
          assert t[i] == t[lo..hi][i - lo];
        }
      }
    }
  }

  /**
   * Stand-in for `std::nth_element(first, nth, last)`: the range becomes a
   * rearrangement of itself in which, when `nth` is inside it, the element
   * at `nth` is the one sorted order puts there, nothing before it is above
   * it and nothing after it is below it. Nothing outside the range changes.
   */
  method NthElement(a: array<int>, first: nat, nth: nat, last: nat)
    requires first <= nth <= last <= a.Length
    modifies a
    ensures PermutedWithin(old(a[..]), a[..], first, last)
    ensures multiset(a[..]) == old(multiset(a[..]))
    ensures nth < last ==> AllAtMost(a[first..nth], a[nth]) && AllAtLeast(a[nth + 1..last], a[nth])
    ensures nth < last ==> a[nth] == SortSeq(old(a[first..last]))[nth - first]
  {
    if nth < last {
      var lo, hi := first, last;
      while lo + 1 < hi
        invariant first <= lo <= nth < hi <= last
        invariant SplitAt(a[..], first, lo, last) && SplitAt(a[..], first, hi, last)
        invariant multiset(a[..]) == old(multiset(a[..]))
        invariant SameOutside(old(a[..]), a[..], first, last)
        decreases hi - lo
      {
        ghost var before := a[..];
        var p := Partition(a, lo, hi);
        PermutedWithinFromWhole(before, a[..], lo, hi);
        PartitionKeepsSplits(before, a[..], first, lo, hi, last, p);
        if nth < p {
          hi := p;
        } else if p < nth {
          lo := p + 1;
        } else {
          lo, hi := p, p + 1;
        }
      }
      SplitsBoundPivot(a[..], first, nth, last);
    }
    PermutedWithinFromWhole(old(a[..]), a[..], first, last);
    if nth < last {
      SelectedIsSorted(old(a[..]), a[..], first, nth, last);
    }
  }

  /** Splits just before and just after `k` bound the two sides of the range by `s[k]`. */
  lemma SplitsBoundPivot(s: seq<int>, first: nat, k: nat, last: nat)
    requires first <= k < last <= |s|
    requires SplitAt(s, first, k, last) && SplitAt(s, first, k + 1, last)
    ensures AllAtMost(s[first..k], s[k]) && AllAtLeast(s[k + 1..last], s[k])
  {
    var left, right := s[first..k], s[k + 1..last];
    forall i | 0 <= i < |left|
      ensures left[i] <= s[k]
    {
      assert left[i] == s[first + i];
    }
    forall i | 0 <= i < |right|
      ensures s[k] <= right[i]
    {
      assert right[i] == s[k + 1 + i];
    }
  }

  /** After selection at `k`, the element at `k` is the one the reference sort puts there. */
  lemma SelectedIsSorted(s: seq<int>, t: seq<int>, first: nat, k: nat, last: nat)
    requires first <= k < last <= |s|
    requires PermutedWithin(s, t, first, last)
    requires AllAtMost(t[first..k], t[k]) && AllAtLeast(t[k + 1..last], t[k])
    ensures t[k] == SortSeq(s[first..last])[k - first]
  {
    var r := t[first..last];
    assert r[..k - first] == t[first..k];
    assert r[k - first + 1..] == t[k + 1..last];
    PivotInSortedPosition(r, SortSeq(s[first..last]), k - first);
  }
}
