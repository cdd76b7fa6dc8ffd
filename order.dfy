/**
 * What "sorted" means for shotgun sort: the array is non-decreasing (equal
 * neighbours are allowed), and an unsorted array is characterised by the
 * index of its first descent, the first i with s[i] > s[i + 1].
 */
module Order {
  import opened Wrappers

  /** The elements at i and i + 1 are in order (equal counts as in order). */
  predicate InOrderAt(s: seq<int>, i: int)
    requires 0 <= i < |s| - 1
  {
    s[i] <= s[i + 1]
  }

  /** Every element is at most its right neighbour. */
  predicate NonDecreasing(s: seq<int>) {
    forall i :: 0 <= i < |s| - 1 ==> InOrderAt(s, i)
  }

  /** The first descent at or after index i, scanning left to right. */
  function FirstDescentFrom(s: seq<int>, i: nat): (r: Option<nat>)
    ensures r.Some? ==> i <= r.value < |s| - 1 && !InOrderAt(s, r.value)
    ensures r.Some? ==> forall k :: i <= k < r.value ==> InOrderAt(s, k)
    ensures r.None? ==> forall k :: i <= k < |s| - 1 ==> InOrderAt(s, k)
    decreases |s| - i
  {
    if i + 1 >= |s| then None
    else if s[i] > s[i + 1] then Some(i)
    else FirstDescentFrom(s, i + 1)
  }

  /** The index of the first descent of s, or None when s is non-decreasing. */
  function FirstDescent(s: seq<int>): (r: Option<nat>)
    ensures r.None? <==> NonDecreasing(s)
    ensures r.Some? ==> r.value < |s| - 1 && s[r.value] > s[r.value + 1]
    ensures r.Some? ==> NonDecreasing(s[..r.value + 1])
  {
    var r := FirstDescentFrom(s, 0);
    if r.Some? then
      PrefixInOrder(s, r.value + 1);
      r
    else
      r
  }

  /** A prefix whose adjacent pairs are in order in s is non-decreasing. */
  lemma PrefixInOrder(s: seq<int>, m: nat)
    requires m <= |s|
    requires forall k :: 0 <= k < m - 1 ==> InOrderAt(s, k)
    ensures NonDecreasing(s[..m])
  {
    forall k | 0 <= k < m - 1
      ensures InOrderAt(s[..m], k)
    {
      assert InOrderAt(s, k);
    }
  }

  /** A descent at d with none before it is the first descent. */
  lemma FirstDescentAt(s: seq<int>, d: nat)
    requires d < |s| - 1 && s[d] > s[d + 1]
    requires forall k :: 0 <= k < d ==> InOrderAt(s, k)
    ensures FirstDescent(s) == Some(d)
  {
    assert !InOrderAt(s, d);
  }

  /** The length of the longest non-decreasing prefix of s. */
  function SortedPrefixLength(s: seq<int>): (r: nat)
    ensures r <= |s|
    ensures NonDecreasing(s[..r])
    ensures r < |s| ==> 0 < r && !InOrderAt(s, r - 1)
  {
    match FirstDescent(s)
    case None => assert s[..|s|] == s; |s|
    case Some(d) => d + 1
  }

  /**
   * A prefix of length d + 1 that is known to be non-decreasing is never
   * longer than the longest one; this bounds the "elements in ascending
   * order" count the program reports for its closest attempt.
   */
  lemma SortedPrefixBound(s: seq<int>, d: nat)
    requires d < |s|
    requires NonDecreasing(s[..d + 1])
    ensures d + 1 <= SortedPrefixLength(s)
  {
    forall k | 0 <= k < d
      ensures InOrderAt(s, k)
    {
      assert InOrderAt(s[..d + 1], k);
    }
  }
}
