/**
 * What it means for a sequence of elements to be sorted, and the reference
 * sort every other sorting routine of the model is compared against.
 * The C++ code sorts with `operator<` on its element type; the model uses
 * `int`, the element type of the repository's test driver.
 */
module SortSpec {

  /** Non-decreasing order. */
  predicate Sorted(s: seq<int>) {
    forall i, j :: 0 <= i < j < |s| ==> s[i] <= s[j]
  }

  /** Every element of `s` is at least `lo`. */
  predicate AllAtLeast(s: seq<int>, lo: int) {
    forall i :: 0 <= i < |s| ==> lo <= s[i]
  }

  /** Every element of `s` is at most `hi`. */
  predicate AllAtMost(s: seq<int>, hi: int) {
    forall i :: 0 <= i < |s| ==> s[i] <= hi
  }

  /** Inserts `x` into the sorted sequence `s`, before the first element not below it. */
  function Insert(x: int, s: seq<int>): (r: seq<int>)
    requires Sorted(s)
    ensures Sorted(r)
    ensures multiset(r) == multiset(s) + multiset{x}
  {
    if s == [] || x <= s[0] then
      [x] + s
    else
      SortedTail(s);
      var rest := Insert(x, s[1..]);
      InsertBehindHead(x, s, rest);
      [s[0]] + rest
  }

  /**
   * When `x` goes behind the head of `s`, the head followed by `x` inserted
   * into the tail is sorted and holds the elements of `s` and `x`.
   */
  lemma InsertBehindHead(x: int, s: seq<int>, rest: seq<int>)
    requires Sorted(s) && s != [] && s[0] < x
    requires Sorted(rest) && multiset(rest) == multiset(s[1..]) + multiset{x}
    ensures Sorted([s[0]] + rest)
    ensures multiset([s[0]] + rest) == multiset(s) + multiset{x}
  {
    assert s == [s[0]] + s[1..];
    assert AllAtLeast(s[1..] + [x], s[0]) by {
      forall i | 0 <= i < |s[1..] + [x]|
        ensures s[0] <= (s[1..] + [x])[i]
      {
        if i < |s[1..]| {
          assert (s[1..] + [x])[i] == s[i + 1];
        }
      }
    }
    assert multiset(s[1..] + [x]) == multiset(rest);
    PermutationKeepsBounds(s[1..] + [x], rest, s[0]);
    SortedCons(s[0], rest);
  }

  /** Insertion sort on sequences: a sorted rearrangement of any input exists. */
  function InsertionSorted(s: seq<int>): (r: seq<int>)
    ensures Sorted(r)
    ensures multiset(r) == multiset(s)
  {
    if s == [] then
      []
    else
      assert s == [s[0]] + s[1..];
      Insert(s[0], InsertionSorted(s[1..]))
  }

  /**
   * The reference sort: the sorted rearrangement of `s`. By SortedUnique
   * there is exactly one, so it stands for the result of `std::sort` on the
   * same input.
   */
  ghost function SortSeq(s: seq<int>): (r: seq<int>)
    ensures Sorted(r)
    ensures multiset(r) == multiset(s)
    ensures |r| == |s|
  {
    assert Sorted(InsertionSorted(s)) && multiset(InsertionSorted(s)) == multiset(s);
    var r :| Sorted(r) && multiset(r) == multiset(s);
    assert |r| == |multiset(r)| == |s|;
    r
  }

  /** A sorted sequence stays sorted under a new head that is at most all of its elements. */
  lemma SortedCons(h: int, t: seq<int>)
    requires Sorted(t) && AllAtLeast(t, h)
    ensures Sorted([h] + t)
  {
    var u := [h] + t;
    forall i, j | 0 <= i < j < |u|
      ensures u[i] <= u[j]
    {
      assert u[j] == t[j - 1];
      if 0 < i {
        assert u[i] == t[i - 1];
      }
    }
  }

  /** A rearrangement keeps every lower and every upper bound of the elements. */
  lemma PermutationKeepsBounds(s: seq<int>, t: seq<int>, b: int)
    requires multiset(s) == multiset(t)
    ensures AllAtLeast(s, b) ==> AllAtLeast(t, b)
    ensures AllAtMost(s, b) ==> AllAtMost(t, b)
  {
    forall j | 0 <= j < |t|
      ensures t[j] in s
    {
      assert t[j] in multiset(t);
    }
  }

  /** Two sorted sequences with the same elements start with the same, least, element. */
  lemma SortedSameHead(s: seq<int>, t: seq<int>)
    requires Sorted(s) && Sorted(t) && s != []
    requires multiset(s) == multiset(t)
    ensures t != [] && s[0] == t[0]
  {
    assert s[0] in multiset(t);
    assert t != [] && t[0] in multiset(s);
    assert AllAtLeast(s, s[0]) && AllAtLeast(t, t[0]);
    PermutationKeepsBounds(s, t, s[0]);
    PermutationKeepsBounds(t, s, t[0]);
  }

  /** Dropping the head of a sorted sequence leaves it sorted and removes one copy of the head. */
  lemma SortedTail(s: seq<int>)
    requires Sorted(s) && s != []
    ensures Sorted(s[1..])
    ensures multiset(s[1..]) == multiset(s) - multiset{s[0]}
  {
    assert s == [s[0]] + s[1..];
  }

  /** Two sorted sequences with the same elements are equal. */
  lemma {:induction false} SortedUnique(s: seq<int>, t: seq<int>)
    requires Sorted(s) && Sorted(t)
    requires multiset(s) == multiset(t)
    ensures s == t
    decreases |s|
  {
    if s == [] {
      assert |t| == |multiset(t)| == 0;
    } else {
      SortedSameHead(s, t);
      SortedTail(s);
      SortedTail(t);
      SortedUnique(s[1..], t[1..]);
      assert s == [s[0]] + s[1..] && t == [t[0]] + t[1..];
    }
  }

  /** Any sorted rearrangement of `s` is the reference sort of `s`. */
  lemma SortSeqUnique(s: seq<int>, t: seq<int>)
    requires Sorted(t) && multiset(t) == multiset(s)
    ensures t == SortSeq(s)
  {
    SortedUnique(t, SortSeq(s));
  }

  /** Rearranging the input does not change its sorted form. */
  lemma SortSeqOfPermutation(s: seq<int>, t: seq<int>)
    requires multiset(s) == multiset(t)
    ensures SortSeq(s) == SortSeq(t)
  {
    SortedUnique(SortSeq(s), SortSeq(t));
  }

  /** Sorting an already sorted sequence leaves it as it is. */
  lemma SortSeqIdempotent(s: seq<int>)
    requires Sorted(s)
    ensures SortSeq(s) == s
  {
    SortedUnique(s, SortSeq(s));
  }

  /** A sorted prefix, a middle element and a sorted suffix that respect it make a sorted sequence. */
  lemma SortedAround(x: seq<int>, p: int, y: seq<int>)
    requires Sorted(x) && Sorted(y)
    requires AllAtMost(x, p) && AllAtLeast(y, p)
    ensures Sorted(x + [p] + y)
  {
    var u := x + [p] + y;
    forall i, j | 0 <= i < j < |u|
      ensures u[i] <= u[j]
    {
      if j < |x| {
      } else if i < |x| {
        assert u[i] <= p;
      } else if i == |x| {
      } else {
        assert u[i] == y[i - |x| - 1] && u[j] == y[j - |x| - 1];
      }
    }
  }

  /** The elements of `s` are those before `k`, the one at `k` and those after it. */
  lemma MultisetAround(s: seq<int>, k: nat)
    requires k < |s|
    ensures multiset(s) == multiset(s[..k]) + multiset{s[k]} + multiset(s[k + 1..])
  {
    assert s == s[..k] + [s[k]] + s[k + 1..];
  }

  /**
   * Selection places the sorted-order element: if nothing before position `k`
   * of `s` is above `s[k]` and nothing after it is below, then in any sorted
   * rearrangement `t` of `s` the element at `k` is `s[k]`, and the two sides
   * of `t` hold exactly the elements of the two sides of `s`.
   */
  lemma PivotInSortedPosition(s: seq<int>, t: seq<int>, k: nat)
    requires k < |s|
    requires AllAtMost(s[..k], s[k]) && AllAtLeast(s[k + 1..], s[k])
    requires Sorted(t) && multiset(t) == multiset(s)
    ensures |t| == |s| && t[k] == s[k]
    ensures multiset(t[..k]) == multiset(s[..k])
    ensures multiset(t[k + 1..]) == multiset(s[k + 1..])
  {
    var left, right := SortSeq(s[..k]), SortSeq(s[k + 1..]);
    PermutationKeepsBounds(s[..k], left, s[k]);
    PermutationKeepsBounds(s[k + 1..], right, s[k]);
    SortedAround(left, s[k], right);
    var u := left + [s[k]] + right;
    MultisetAround(s, k);
    assert multiset(u) == multiset(left) + multiset{s[k]} + multiset(right);
    SortedUnique(u, t);
    assert u[..k] == left;
    assert u[k + 1..] == right;
  }
}
