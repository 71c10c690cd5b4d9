/**
 * The work list of the sort: half-open ranges of positions that still have
 * to be processed, and the invariant that a single worker draining the list
 * keeps between two steps of `process_chunk`.
 */
module WorkList {
  import opened SortSpec
  import opened StdAlgorithms

  /** `std::pair<Iterator, Iterator>`: the positions [first, last) of the sequence. */
  datatype Range = Range(first: nat, last: nat)

  /** Ranges shorter than this are sorted directly instead of being split. */
  const Threshold: nat := 10

  /** A valid iterator range into a sequence of length `n`. */
  predicate Within(r: Range, n: nat) {
    r.first <= r.last <= n
  }

  /** `std::distance(first, last)`. */
  function Size(r: Range): (n: nat)
    requires r.first <= r.last
  {
    r.last - r.first
  }

  /** `first + size / 2`: the position `nth_element` fixes when the range is split. */
  function Midpoint(r: Range): (m: nat)
    requires r.first <= r.last
  {
    r.first + Size(r) / 2
  }

  predicate Contains(r: Range, p: int) {
    r.first <= p < r.last
  }

  /** No position lies in both ranges. */
  predicate Disjoint(r: Range, q: Range) {
    r.last <= q.first || q.last <= r.first
  }

  ghost predicate InBounds(rs: seq<Range>, n: nat) {
    forall k :: 0 <= k < |rs| ==> Within(rs[k], n)
  }

  ghost predicate PairwiseDisjoint(rs: seq<Range>) {
    forall j, k :: 0 <= j < k < |rs| ==> Disjoint(rs[j], rs[k])
  }

  /** Position `p` lies in one of the pending ranges. */
  ghost predicate Covered(rs: seq<Range>, p: int) {
    exists k :: 0 <= k < |rs| && Contains(rs[k], p)
  }

  /** The number of positions the pending ranges still hold. */
  ghost function TotalSize(rs: seq<Range>): (n: nat)
    requires forall k :: 0 <= k < |rs| ==> rs[k].first <= rs[k].last
  {
    if rs == [] then 0 else TotalSize(rs[..|rs| - 1]) + Size(rs[|rs| - 1])
  }

  /**
   * The driver's invariant between two steps, relating the current contents
   * `s` of the sequence, the `target` it must end as, and the pending ranges
   * `rs`: the ranges lie inside the sequence and do not overlap; sorting a
   * pending range on its own gives the target's elements at those
   * positions; and every position no pending range covers already holds its
   * target element.
   */
  ghost predicate Inv(s: seq<int>, target: seq<int>, rs: seq<Range>) {
    |target| == |s| &&
    InBounds(rs, |s|) &&
    PairwiseDisjoint(rs) &&
    (forall k :: 0 <= k < |rs| ==>
       target[rs[k].first..rs[k].last] == SortSeq(s[rs[k].first..rs[k].last])) &&
    (forall p :: 0 <= p < |s| && !Covered(rs, p) ==> s[p] == target[p])
  }

  /** The sequence with [first, last) replaced by its reference sort. */
  ghost function SortedWithin(s: seq<int>, first: nat, last: nat): seq<int>
    requires first <= last <= |s|
  {
    s[..first] + SortSeq(s[first..last]) + s[last..]
  }

  /**
   * The effect of one successful `process_chunk` on the sequence (`s` before,
   * `s'` after) and on the work list (`pending` before, `pending'` after):
   * the top range `r` is popped and only its positions are rearranged; a
   * range of fewer than `Threshold` positions ends sorted, and a larger one
   * is split at its midpoint, which then bounds the two sides, and the two
   * sides are pushed, left one first.
   */
  ghost predicate ChunkStep(s: seq<int>, s': seq<int>, pending: seq<Range>, pending': seq<Range>) {
    pending != [] &&
    var r, rest := pending[|pending| - 1], pending[..|pending| - 1];
    Within(r, |s|) &&
    PermutedWithin(s, s', r.first, r.last) &&
    if Size(r) < Threshold then
      pending' == rest && Sorted(s'[r.first..r.last])
    else
      var m := Midpoint(r);
      pending' == rest + [Range(r.first, m), Range(m + 1, r.last)] &&
      AllAtMost(s'[r.first..m], s'[m]) && AllAtLeast(s'[m + 1..r.last], s'[m])
  }

  /**
   * Splitting a range of at least `Threshold` positions at its midpoint
   * gives two non-empty ranges inside it, one on each side of the midpoint,
   * that together hold one position fewer than the range.
   */
  lemma SplitHalves(r: Range)
    requires r.first <= r.last && Size(r) >= Threshold
    ensures var m := Midpoint(r);
      var left, right := Range(r.first, m), Range(m + 1, r.last);
      r.first < m < m + 1 < r.last &&
      Size(left) > 0 && Size(right) > 0 &&
      Disjoint(left, right) &&
      !Contains(left, m) && !Contains(right, m) &&
      Size(left) + Size(right) == Size(r) - 1
  {
  }

  lemma TotalSizeAppend(rs: seq<Range>, r: Range)
    requires forall k :: 0 <= k < |rs| ==> rs[k].first <= rs[k].last
    requires r.first <= r.last
    ensures TotalSize(rs + [r]) == TotalSize(rs) + Size(r)
  {
    assert (rs + [r])[..|rs|] == rs;
  }

  /** Replacing a range by its two halves removes exactly the midpoint from the pending work. */
  lemma {:induction false} SplitShrinksWork(rs: seq<Range>, r: Range)
    requires forall k :: 0 <= k < |rs| ==> rs[k].first <= rs[k].last
    requires r.first <= r.last && Size(r) >= Threshold
    ensures var m := Midpoint(r);
      TotalSize(rs + [Range(r.first, m), Range(m + 1, r.last)]) == TotalSize(rs + [r]) - 1
  {
    var m := Midpoint(r);
    var left, right := Range(r.first, m), Range(m + 1, r.last);
    assert rs + [left, right] == (rs + [left]) + [right];
    TotalSizeAppend(rs, left);
    TotalSizeAppend(rs + [left], right);
    TotalSizeAppend(rs, r);
  }

  lemma CoveredAppend(rs: seq<Range>, qs: seq<Range>, p: int)
    ensures Covered(rs + qs, p) <==> Covered(rs, p) || Covered(qs, p)
  {
    if Covered(rs + qs, p) {
      var k :| 0 <= k < |rs + qs| && Contains((rs + qs)[k], p);
      if k >= |rs| {
        assert qs[k - |rs|] == (rs + qs)[k];
      }
    }
    if Covered(rs, p) {
      var k :| 0 <= k < |rs| && Contains(rs[k], p);
      assert (rs + qs)[k] == rs[k];
    }
    if Covered(qs, p) {
      var k :| 0 <= k < |qs| && Contains(qs[k], p);
      assert (rs + qs)[|rs| + k] == qs[k];
    }
  }

  lemma CoveredFew(r: Range, q: Range, q': Range, p: int)
    ensures Covered([r], p) <==> Contains(r, p)
    ensures Covered([q, q'], p) <==> Contains(q, p) || Contains(q', p)
  {
    if Contains(r, p) {
      assert [r][0] == r;
    }
    if Covered([q, q'], p) {
      var k :| 0 <= k < 2 && Contains([q, q'][k], p);
    }
    if Contains(q, p) {
      assert [q, q'][0] == q;
    }
    if Contains(q', p) {
      assert [q, q'][1] == q';
    }
  }

  lemma SortedSlice(s: seq<int>, i: nat, j: nat)
    requires Sorted(s) && i <= j <= |s|
    ensures Sorted(s[i..j])
  {
    var u := s[i..j];
    forall x, y | 0 <= x < y < |u|
      ensures u[x] <= u[y]
    {
      assert u[x] == s[i + x] && u[y] == s[i + y];
    }
  }

  /** The work list seeded with the single range [first, last) satisfies the invariant. */
  lemma InvStart(s: seq<int>, first: nat, last: nat)
    requires first <= last <= |s|
    ensures Inv(s, SortedWithin(s, first, last), [Range(first, last)])
  {
    var t := SortedWithin(s, first, last);
    var rs := [Range(first, last)];
    assert t[first..last] == SortSeq(s[first..last]);
    forall p | 0 <= p < |s| && !Covered(rs, p)
      ensures s[p] == t[p]
    {
      assert !Contains(rs[0], p);
      if p < first {
        assert t[p] == s[..first][p];
      } else {
        assert t[p] == s[last..][p - last];
      }
    }
  }

  /** Once no range is pending, the sequence is its target. */
  lemma InvFinish(s: seq<int>, target: seq<int>)
    requires Inv(s, target, [])
    ensures s == target
  {
    forall p | 0 <= p < |s|
      ensures s[p] == target[p]
    {
      assert !Covered([], p);
    }
  }

  /** A range pending beside `r` keeps its contents when only `r` changes. */
  lemma OtherRangeUnchanged(s: seq<int>, s': seq<int>, r: Range, q: Range)
    requires Within(r, |s|) && Within(q, |s|) && Disjoint(r, q)
    requires SameOutside(s, s', r.first, r.last)
    ensures s'[q.first..q.last] == s[q.first..q.last]
  {
  }

  /**
   * The ranges pending below the top range `r` keep their place in the
   * invariant when only `r`'s positions are rearranged.
   */
  lemma RestKeepsInv(s: seq<int>, s': seq<int>, target: seq<int>, rs: seq<Range>, r: Range)
    requires Inv(s, target, rs + [r])
    requires PermutedWithin(s, s', r.first, r.last)
    ensures InBounds(rs, |s'|) && PairwiseDisjoint(rs)
    ensures forall k :: 0 <= k < |rs| ==>
      Disjoint(rs[k], r) &&
      target[rs[k].first..rs[k].last] == SortSeq(s'[rs[k].first..rs[k].last])
  {
    var all := rs + [r];
    assert all[|rs|] == r;
    forall k | 0 <= k < |rs|
      ensures Within(rs[k], |s'|) && Disjoint(rs[k], r)
      ensures target[rs[k].first..rs[k].last] == SortSeq(s'[rs[k].first..rs[k].last])
    {
      assert all[k] == rs[k];
      OtherRangeUnchanged(s, s', r, rs[k]);
    }
    forall j, k | 0 <= j < k < |rs|
      ensures Disjoint(rs[j], rs[k])
    {
      assert all[j] == rs[j] && all[k] == rs[k];
    }
  }

  /**
   * Popping the top range `r` and sorting it in place keeps the invariant
   * for the remaining ranges: `r`'s positions now hold their target elements.
   */
  lemma InvSortStep(s: seq<int>, s': seq<int>, target: seq<int>, rs: seq<Range>, r: Range)
    requires Inv(s, target, rs + [r])
    requires PermutedWithin(s, s', r.first, r.last)
    requires Sorted(s'[r.first..r.last])
    ensures Inv(s', target, rs)
  {
    RestKeepsInv(s, s', target, rs, r);
    assert (rs + [r])[|rs|] == r;
    SortSeqUnique(s[r.first..r.last], s'[r.first..r.last]);
    SortedRangeSettled(s, s', target, rs, r);
  }

  /**
   * Once the popped range `r` holds its target elements, every position no
   * remaining range covers holds its target element.
   */
  lemma SortedRangeSettled(s: seq<int>, s': seq<int>, target: seq<int>, rs: seq<Range>, r: Range)
    requires |target| == |s| && Within(r, |s|)
    requires SameOutside(s, s', r.first, r.last)
    requires forall p :: 0 <= p < |s| && !Covered(rs + [r], p) ==> s[p] == target[p]
    requires target[r.first..r.last] == s'[r.first..r.last]
    ensures forall p :: 0 <= p < |s'| && !Covered(rs, p) ==> s'[p] == target[p]
  {
    forall p | 0 <= p < |s'| && !Covered(rs, p)
      ensures s'[p] == target[p]
    {
      CoveredAppend(rs, [r], p);
      CoveredFew(r, r, r, p);
      if Contains(r, p) {
        assert s'[p] == s'[r.first..r.last][p - r.first];
        assert target[p] == target[r.first..r.last][p - r.first];
      }
    }
  }

  /**
   * In a sorted rearrangement `tr` of `u` that is split at `k`, the element
   * at `k` is `u[k]` and each side is the sorted form of the same side of `u`.
   */
  lemma SidesSortToTarget(u: seq<int>, tr: seq<int>, k: nat)
    requires k < |u|
    requires AllAtMost(u[..k], u[k]) && AllAtLeast(u[k + 1..], u[k])
    requires Sorted(tr) && multiset(tr) == multiset(u)
    ensures |tr| == |u| && tr[k] == u[k]
    ensures tr[..k] == SortSeq(u[..k])
    ensures tr[k + 1..] == SortSeq(u[k + 1..])
  {
    PivotInSortedPosition(u, tr, k);
    SortedSlice(tr, 0, k);
    SortedSlice(tr, k + 1, |tr|);
    SortSeqUnique(u[..k], tr[..k]);
    SortSeqUnique(u[k + 1..], tr[k + 1..]);
  }

  /**
   * After selection at `m` inside the top range `r`, the sorted forms of the
   * two halves are the target's elements on each side of `m`, and `m` holds
   * its target element.
   */
  lemma HalvesMatchTarget(s: seq<int>, s': seq<int>, target: seq<int>, r: Range, m: nat)
    requires |target| == |s| && Within(r, |s|) && r.first <= m < r.last
    requires target[r.first..r.last] == SortSeq(s[r.first..r.last])
    requires PermutedWithin(s, s', r.first, r.last)
    requires AllAtMost(s'[r.first..m], s'[m]) && AllAtLeast(s'[m + 1..r.last], s'[m])
    ensures target[m] == s'[m]
    ensures target[r.first..m] == SortSeq(s'[r.first..m])
    ensures target[m + 1..r.last] == SortSeq(s'[m + 1..r.last])
  {
    var u, tr := s'[r.first..r.last], target[r.first..r.last];
    var k := m - r.first;
    assert u[..k] == s'[r.first..m];
    assert u[k + 1..] == s'[m + 1..r.last];
    assert tr[..k] == target[r.first..m];
    assert tr[k + 1..] == target[m + 1..r.last];
    assert u[k] == s'[m] && tr[k] == target[m];
    assert Sorted(tr) && multiset(tr) == multiset(u);
    SidesSortToTarget(u, tr, k);
  }

  /**
   * Popping the top range `r`, selecting at `m` inside it and pushing the
   * two sides keeps the invariant: `m` now holds its target element and
   * each side is pending.
   */
  lemma InvSplitStep(s: seq<int>, s': seq<int>, target: seq<int>, rs: seq<Range>, r: Range, m: nat)
    requires Inv(s, target, rs + [r])
    requires r.first <= m < r.last
    requires PermutedWithin(s, s', r.first, r.last)
    requires AllAtMost(s'[r.first..m], s'[m]) && AllAtLeast(s'[m + 1..r.last], s'[m])
    ensures Inv(s', target, rs + [Range(r.first, m), Range(m + 1, r.last)])
  {
    var left, right := Range(r.first, m), Range(m + 1, r.last);
    var next := rs + [left, right];
    assert (rs + [r])[|rs|] == r;
    RestKeepsInv(s, s', target, rs, r);
    HalvesMatchTarget(s, s', target, r, m);
    HalvesKeepShape(|s'|, rs, r, m);
    HalvesKeepTargets(s', target, rs, r, m);
    forall p | 0 <= p < |s'| && !Covered(next, p)
      ensures s'[p] == target[p]
    {
      CoveredAppend(rs, [left, right], p);
      CoveredAppend(rs, [r], p);
      CoveredFew(r, left, right, p);
      if p != m {
        assert !Contains(r, p);
      }
    }
  }

  /**
   * The ranges below `r` together with its two sides are in bounds and
   * pairwise disjoint.
   */
  lemma HalvesKeepShape(n: nat, rs: seq<Range>, r: Range, m: nat)
    requires Within(r, n) && r.first <= m < r.last
    requires InBounds(rs, n) && PairwiseDisjoint(rs)
    requires forall k :: 0 <= k < |rs| ==> Disjoint(rs[k], r)
    ensures var next := rs + [Range(r.first, m), Range(m + 1, r.last)];
      InBounds(next, n) && PairwiseDisjoint(next)
  {
    var left, right := Range(r.first, m), Range(m + 1, r.last);
    var next := rs + [left, right];
    forall k | 0 <= k < |next|
      ensures Within(next[k], n)
    {
      if k < |rs| {
        assert next[k] == rs[k];
      }
    }
    forall j, k | 0 <= j < k < |next|
      ensures Disjoint(next[j], next[k])
    {
      if k < |rs| {
        assert next[j] == rs[j] && next[k] == rs[k];
      } else if j < |rs| {
        assert next[j] == rs[j];
      } else {
        assert next[j] == left && next[k] == right;
      }
    }
  }

  /** The ranges below `r` together with its two sides each sort to the target's elements. */
  lemma HalvesKeepTargets(s': seq<int>, target: seq<int>, rs: seq<Range>, r: Range, m: nat)
    requires |target| == |s'| && Within(r, |s'|) && r.first <= m < r.last
    requires InBounds(rs, |s'|)
    requires forall k :: 0 <= k < |rs| ==>
      target[rs[k].first..rs[k].last] == SortSeq(s'[rs[k].first..rs[k].last])
    requires target[r.first..m] == SortSeq(s'[r.first..m])
    requires target[m + 1..r.last] == SortSeq(s'[m + 1..r.last])
    ensures var next := rs + [Range(r.first, m), Range(m + 1, r.last)];
      forall k :: 0 <= k < |next| ==>
        target[next[k].first..next[k].last] == SortSeq(s'[next[k].first..next[k].last])
  {
    var next := rs + [Range(r.first, m), Range(m + 1, r.last)];
    forall k | 0 <= k < |next|
      ensures target[next[k].first..next[k].last] == SortSeq(s'[next[k].first..next[k].last])
    {
      if k < |rs| {
        assert next[k] == rs[k];
      }
    }
  }

  /** One successful `process_chunk` keeps the invariant. */
  lemma StepKeepsInv(s: seq<int>, s': seq<int>, target: seq<int>, pending: seq<Range>, pending': seq<Range>)
    requires Inv(s, target, pending)
    requires ChunkStep(s, s', pending, pending')
    ensures Inv(s', target, pending')
  {
    var r, rest := pending[|pending| - 1], pending[..|pending| - 1];
    assert pending == rest + [r];
    if Size(r) < Threshold {
      InvSortStep(s, s', target, rest, r);
    } else {
      InvSplitStep(s, s', target, rest, r, Midpoint(r));
    }
  }

  /**
   * One successful `process_chunk` shrinks the pending work: fewer positions
   * pending, or as many in fewer ranges.
   */
  lemma StepShrinksWork(s: seq<int>, s': seq<int>, pending: seq<Range>, pending': seq<Range>)
    requires InBounds(pending, |s|) && InBounds(pending', |s'|)
    requires ChunkStep(s, s', pending, pending')
    ensures TotalSize(pending') < TotalSize(pending) ||
            (TotalSize(pending') == TotalSize(pending) && |pending'| < |pending|)
  {
    var r, rest := pending[|pending| - 1], pending[..|pending| - 1];
    assert pending == rest + [r];
    assert InBounds(rest, |s|) by {
      forall k | 0 <= k < |rest|
        ensures Within(rest[k], |s|)
      {
        assert rest[k] == pending[k];
      }
    }
    TotalSizeAppend(rest, r);
    if Size(r) >= Threshold {
      SplitShrinksWork(rest, r);
    }
  }
}
