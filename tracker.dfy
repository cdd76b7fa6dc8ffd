/**
 * The program's run state (its global variables) and is_sorted, which checks
 * the shuffled array and, as a side effect, keeps the closest attempt so far.
 */
module Tracker {
  import opened Wrappers
  import opened Order

  /** The largest array the program accepts, and the size of closest_array. */
  const MaxElements := 100

  predicate AllZero(s: seq<int>) {
    forall i :: 0 <= i < |s| ==> s[i] == 0
  }

  /** An unsorted array whose first descent lies beyond the best one stored. */
  predicate BeatsClosest(s: seq<int>, closest: int) {
    FirstDescent(s).Some? && FirstDescent(s).value > closest
  }

  /** The closest attempt as the program reports it: index, iteration and array. */
  datatype Snapshot = Snapshot(index: int, iteration: int, values: seq<int>)

  /**
   * is_sorted's bookkeeping for pass s, checked while the attempt count is
   * itr: a pass whose first descent lies beyond the stored index replaces
   * the snapshot, anything else leaves it alone.
   */
  function Track(snap: Snapshot, s: seq<int>, itr: int): (r: Snapshot)
    ensures snap.index <= r.index
    ensures r == snap || (r.values == s && r.iteration == itr && FirstDescent(s) == Some(r.index))
    ensures NonDecreasing(s) ==> r == snap
  {
    if BeatsClosest(s, snap.index) then Snapshot(FirstDescent(s).value, itr, s) else snap
  }

  class RunState {
    /** num_array_elements */
    const n: int
    /** closest_array: a zero-initialised buffer of MaxElements entries */
    const closestArray: array<int>
    /** num_sort_attempts */
    var numSortAttempts: int
    /** closest_attempt: the first-descent index of the closest attempt (0 before any record) */
    var closestAttempt: int
    /** closest_attempt_itr: the value of numSortAttempts when it was recorded */
    var closestAttemptItr: int

    /**
     * Before any record the closest attempt is the untouched zero buffer;
     * after one, it is an unsorted copy whose first descent is closestAttempt.
     */
    ghost predicate Valid()
      reads this, closestArray
    {
      && 2 <= n <= MaxElements
      && closestArray.Length == MaxElements
      && 0 <= closestAttemptItr <= numSortAttempts
      && 0 <= closestAttempt <= n - 2
      && (closestAttempt == 0 ==> closestAttemptItr == 0 && AllZero(closestArray[..]))
      && (closestAttempt > 0 ==> FirstDescent(closestArray[..n]) == Some(closestAttempt))
    }

    constructor (n: int)
      requires 2 <= n <= MaxElements
      ensures Valid() && fresh(closestArray)
      ensures this.n == n && numSortAttempts == 0
      ensures closestAttempt == 0 && closestAttemptItr == 0
    {
      this.n := n;
      closestArray := new int[MaxElements](_ => 0);
      numSortAttempts := 0;
      closestAttempt := 0;
      closestAttemptItr := 0;
    }

    /** num_sort_attempts++ after an unsorted attempt that continues. */
    method CountAttempt()
      requires Valid()
      modifies this`numSortAttempts
      ensures Valid() && numSortAttempts == old(numSortAttempts) + 1
      ensures Closest() == old(Closest())
    {
      numSortAttempts := numSortAttempts + 1;
    }

    /**
     * is_sorted: true exactly when the array is non-decreasing. On an unsorted
     * array whose first descent is beyond the stored closest attempt, the
     * attempt becomes the closest one (index, iteration and a copy of the
     * array); otherwise nothing changes. The array itself is only read.
     */
    method IsSorted(a: array<int>) returns (sorted: bool)
      requires Valid() && a.Length == n && a != closestArray
      modifies this`closestAttempt, this`closestAttemptItr, closestArray
      ensures Valid()
      ensures sorted <==> NonDecreasing(a[..])
      ensures Closest() == Track(old(Closest()), a[..], numSortAttempts)
      ensures closestAttempt >= old(closestAttempt)
      ensures BeatsClosest(a[..], old(closestAttempt)) ==>
        && closestAttempt == FirstDescent(a[..]).value
        && closestAttemptItr == numSortAttempts
        && closestArray[..n] == a[..]
        && closestArray[n..] == old(closestArray[n..])
      ensures !BeatsClosest(a[..], old(closestAttempt)) ==>
        && closestAttempt == old(closestAttempt)
        && closestAttemptItr == old(closestAttemptItr)
        && closestArray[..] == old(closestArray[..])
    {
      var i := 0;
      while i < n - 1
        invariant 0 <= i <= n - 1
        invariant forall k :: 0 <= k < i ==> InOrderAt(a[..], k)
      {
        if a[i] > a[i + 1] {
          FirstDescentAt(a[..], i);
          if i > closestAttempt {
            closestAttempt := i;
            closestAttemptItr := numSortAttempts;
            var j := 0;
            while j < n
              invariant 0 <= j <= n
              invariant closestAttempt == i && closestAttemptItr == numSortAttempts
              invariant forall k :: 0 <= k < j ==> closestArray[k] == a[k]
              invariant forall k :: j <= k < MaxElements ==> closestArray[k] == old(closestArray[k])
            {
              closestArray[j] := a[j];
              j := j + 1;
            }
            assert closestArray[..n] == a[..];
          }
          return false;
        }
        i := i + 1;
      }
      return true;
    }

    /**
     * The stored closest attempt: closest_array[0..n) with closest_attempt
     * and closest_attempt_itr. Its elements up to the index are in order.
     */
    function Closest(): (snap: Snapshot)
      reads this, closestArray
      requires Valid()
      ensures |snap.values| == n && 0 <= snap.index <= n - 2
      ensures NonDecreasing(snap.values[..snap.index + 1])
    {
      Snapshot(closestAttempt, closestAttemptItr, closestArray[..n])
    }
  }
}
