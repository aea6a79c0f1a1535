/**
 * sort.Strings: sorting a slice of strings in place into Go's
 * non-decreasing string order.  `SortLines` is the specification (the
 * unique sorted permutation); `SortStrings` sorts the slice `a[lo..]` of
 * an array in place, as `sort.Strings(lines[1:])` does on the header lines.
 */
module StringSort {
  import opened GoStrings

  /** Every adjacent pair is in non-decreasing order. */
  predicate Sorted(s: seq<string>) {
    forall i :: 0 < i < |s| ==> LessEq(s[i - 1], s[i])
  }

  /** Inserts `x` into a sorted sequence before the first element not below it. */
  function Insert(x: string, s: seq<string>): (r: seq<string>)
    requires Sorted(s)
    ensures Sorted(r)
    ensures multiset(r) == multiset(s) + multiset{x}
    ensures |r| > 0 && (r[0] == x || (|s| > 0 && r[0] == s[0]))
  {
    if |s| == 0 then [x]
    else if LessEq(x, s[0]) then [x] + s
    else
      LessEqTotalOrder(x, s[0], x);
      var rest := Insert(x, s[1..]);
      assert s == [s[0]] + s[1..];
      [s[0]] + rest
  }

  /** The lines in non-decreasing order: a sorted permutation of the input. */
  function SortLines(s: seq<string>): (r: seq<string>)
    ensures Sorted(r)
    ensures multiset(r) == multiset(s)
    ensures |r| == |s|
  {
    if |s| == 0 then []
    else
      assert s == [s[0]] + s[1..];
      Insert(s[0], SortLines(s[1..]))
  }

  /** In a sorted sequence the first element is below every other one. */
  lemma {:induction false} SortedFirstLeast(s: seq<string>, k: int)
    requires Sorted(s) && 0 <= k < |s|
    ensures LessEq(s[0], s[k])
  {
    if k == 0 {
      LessEqTotalOrder(s[0], s[0], s[0]);
    } else {
      SortedFirstLeast(s, k - 1);
      LessEqTotalOrder(s[0], s[k - 1], s[k]);
    }
  }

  /** Two non-empty sorted sequences with the same elements start with the same element. */
  lemma SortedHeadsEqual(x: seq<string>, y: seq<string>)
    requires Sorted(x) && Sorted(y) && |x| > 0 && |y| > 0
    requires multiset(x) == multiset(y)
    ensures x[0] == y[0]
  {
    assert x[0] in multiset(y);
    var k :| 0 <= k < |y| && y[k] == x[0];
    SortedFirstLeast(y, k);
    assert y[0] in multiset(x);
    var m :| 0 <= m < |x| && x[m] == y[0];
    SortedFirstLeast(x, m);
    LessEqTotalOrder(x[0], y[0], y[0]);
  }

  /** Removing the same first element from two sequences with the same elements keeps them equal as multisets. */
  lemma TailsSameElements(x: seq<string>, y: seq<string>)
    requires |x| > 0 && |y| > 0 && x[0] == y[0]
    requires multiset(x) == multiset(y)
    ensures multiset(x[1..]) == multiset(y[1..])
  {
    assert x == [x[0]] + x[1..] && y == [y[0]] + y[1..];
    assert multiset(x[1..]) == multiset(x) - multiset{x[0]};
    assert multiset(y[1..]) == multiset(y) - multiset{y[0]};
  }

  /** Two sorted sequences with the same elements are equal: sorting has one answer. */
  lemma {:induction false} SortedUnique(x: seq<string>, y: seq<string>)
    requires Sorted(x) && Sorted(y)
    requires multiset(x) == multiset(y)
    ensures x == y
    decreases |x|
  {
    assert |x| == |multiset(x)| == |y|;
    if |x| > 0 {
      SortedHeadsEqual(x, y);
      TailsSameElements(x, y);
      SortedUnique(x[1..], y[1..]);
      assert x == [x[0]] + x[1..] && y == [y[0]] + y[1..];
    }
  }

  /**
   * Two sequences with the same elements and the same prefix have the same
   * elements after it.
   */
  lemma SuffixSameElements(before: seq<string>, after: seq<string>, lo: int)
    requires 0 <= lo <= |before| == |after|
    requires before[..lo] == after[..lo]
    requires multiset(before) == multiset(after)
    ensures multiset(before[lo..]) == multiset(after[lo..])
  {
    assert before == before[..lo] + before[lo..];
    assert after == after[..lo] + after[lo..];
    assert multiset(before[lo..]) == multiset(before) - multiset(before[..lo]);
    assert multiset(after[lo..]) == multiset(after) - multiset(after[..lo]);
  }

  /** `a[lo..hi]` is in non-decreasing order. */
  ghost predicate SortedRange(a: array<string>, lo: int, hi: int)
    reads a
  {
    forall k :: lo < k < hi && 0 < k < a.Length ==> LessEq(a[k - 1], a[k])
  }

  /** Exchanges two neighbouring elements. */
  method SwapDown(a: array<string>, j: int)
    requires 0 < j < a.Length
    modifies a
    ensures a[j - 1] == old(a[j]) && a[j] == old(a[j - 1])
    ensures forall k :: 0 <= k < a.Length && k != j - 1 && k != j ==> a[k] == old(a[k])
    ensures multiset(a[..]) == multiset(old(a[..]))
  {
    a[j - 1], a[j] := a[j], a[j - 1];
  }

  /** Moves `a[i]` down into the sorted run `a[lo..i]`, leaving `a[lo..i + 1]` sorted. */
  method SinkInto(a: array<string>, lo: int, i: int)
    requires 0 <= lo <= i < a.Length
    requires SortedRange(a, lo, i)
    modifies a
    ensures SortedRange(a, lo, i + 1)
    ensures forall k :: 0 <= k < a.Length && (k < lo || i < k) ==> a[k] == old(a[k])
    ensures multiset(a[..]) == multiset(old(a[..]))
  {
    var j := i;
    while j > lo && !LessEq(a[j - 1], a[j])
      invariant lo <= j <= i
      invariant forall k :: 0 <= k < a.Length && (k < lo || i < k) ==> a[k] == old(a[k])
      invariant multiset(a[..]) == multiset(old(a[..]))
      invariant forall k :: lo < k <= i && k != j ==> LessEq(a[k - 1], a[k])
      invariant lo < j < i ==> LessEq(a[j - 1], a[j + 1])
    {
      LessEqTotalOrder(a[j - 1], a[j], a[j]);
      SwapDown(a, j);
      j := j - 1;
    }
  }

  /**
   * Sorts `a[lo..]` in place (insertion sort by adjacent swaps); the
   * elements before `lo` are untouched.
   */
  method SortStrings(a: array<string>, lo: nat)
    requires lo <= a.Length
    modifies a
    ensures a[..lo] == old(a[..lo])
    ensures Sorted(a[lo..]) && multiset(a[lo..]) == multiset(old(a[lo..]))
    ensures a[lo..] == SortLines(old(a[lo..]))
  {
    var i := lo;
    while i < a.Length
      invariant lo <= i <= a.Length
      invariant forall k :: 0 <= k < lo ==> a[k] == old(a[k])
      invariant multiset(a[..]) == multiset(old(a[..]))
      invariant SortedRange(a, lo, i)
    {
      SinkInto(a, lo, i);
      i := i + 1;
    }
    assert a[..lo] == old(a[..lo]);
    SuffixSameElements(old(a[..]), a[..], lo);
    assert a[..][lo..] == a[lo..] && old(a[..])[lo..] == old(a[lo..]);
    assert Sorted(a[lo..]);
    SortedUnique(a[lo..], SortLines(old(a[lo..])));
  }
}
