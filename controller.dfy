/**
 * The program's main: argument validation, filling the array, and the
 * attempt loop (shuffle, check, then stop as sorted, stop at the limit, or
 * count the attempt and go on).
 *
 * rand() is lifted to inputs: `seeds` are the draws that fill the array
 * (each taken % 100) and `blocks[k]` the n draws of shuffle pass k (each
 * taken % n). The loop runs until the supply of blocks is used up, which
 * stands for the interrupt that is the only other way the program stops.
 */
module Controller {
  import opened Wrappers
  import opened Order
  import opened Shuffle
  import opened Tracker

  const DefaultElements := 5
  /** limit_attempts when no limit is given */
  const Unlimited := -1

  datatype Config = Config(n: int, limit: int)

  datatype ArgError = TooFewElements | TooManyElements

  /**
   * Validation of the parsed command-line arguments: args[0] is the array
   * length (default 5), args[1] the attempt limit (default unlimited).
   */
  function ParseConfig(args: seq<int>): (r: Result<Config, ArgError>)
    ensures r.Success? <==> |args| == 0 || 2 <= args[0] <= MaxElements
    ensures r.Success? ==> 2 <= r.value.n <= MaxElements
    ensures r.Success? && |args| > 0 ==> r.value.n == args[0]
    ensures |args| == 0 ==> r == Success(Config(DefaultElements, Unlimited))
    ensures r.Success? ==> (r.value.limit == Unlimited <==> |args| < 2 || args[1] == Unlimited)
    ensures r.Success? && |args| >= 2 ==> r.value.limit == args[1]
    ensures r.Failure? ==> (r.error == TooFewElements <==> args[0] < 2)
  {
    var n := if |args| == 0 then DefaultElements else args[0];
    if |args| > 0 && n < 2 then Failure(TooFewElements)
    else
      var limit := if |args| > 1 then args[1] else Unlimited;
      if n > MaxElements then Failure(TooManyElements)
      else Success(Config(n, limit))
  }

  /** The smallest and largest accepted lengths, and their neighbours. */
  lemma ValidationBoundaries()
    ensures ParseConfig([1]) == Failure(TooFewElements)
    ensures ParseConfig([2]).Success?
    ensures ParseConfig([100, 7]) == Success(Config(100, 7))
    ensures ParseConfig([101]) == Failure(TooManyElements)
  {
  }

  /** The array the program starts from: rand() % 100 per element. */
  function Populate(seeds: seq<nat>): (r: seq<int>)
    ensures |r| == |seeds|
    ensures forall i :: 0 <= i < |r| ==> 0 <= r[i] < 100 && r[i] == seeds[i] % 100
  {
    seq(|seeds|, i requires 0 <= i < |seeds| => seeds[i] % 100)
  }

  /** The array fill loop of main: element i becomes seeds[i] % 100. */
  method FillArray(seeds: seq<nat>) returns (a: array<int>)
    ensures fresh(a) && a[..] == Populate(seeds)
  {
    a := new int[|seeds|];
    for i := 0 to |seeds|
      invariant a[..i] == Populate(seeds)[..i]
    {
      a[i] := seeds[i] % 100;
    }
  }

  datatype Outcome =
    | Sorted(attempts: int, values: seq<int>)
    | LimitReached(attempts: int, closest: Snapshot)
    | Cancelled(attempts: int, closest: Snapshot)

  /** The number of shuffle passes that ended unsorted. */
  function UnsortedPasses(o: Outcome): int {
    if o.LimitReached? then o.attempts + 1 else o.attempts
  }

  /** The larger of a and b: a limit below zero other than Unlimited allows no counted attempt. */
  function Max(a: int, b: int): int { if a < b then b else a }

  /** The closest attempt before any record: index 0, iteration 0, all zeros. */
  function Untouched(n: nat): Snapshot {
    Snapshot(0, 0, seq(n, _ => 0))
  }

  /**
   * The arrays that is_sorted sees in a run from init, one per block of
   * draws: entry k is the array after attempt k's shuffle pass.
   */
  ghost function Passes(init: seq<int>, blocks: seq<seq<nat>>): (r: seq<seq<int>>)
    requires Blocks(blocks, |init|)
    ensures |r| == |blocks|
  {
    seq(|blocks|, j requires 0 <= j < |blocks| => ShuffleRun(init, blocks, j + 1))
  }

  /** Every array of the run is a rearrangement of init. */
  ghost predicate Rearrangements(init: seq<int>, passes: seq<seq<int>>) {
    forall j :: 0 <= j < |passes| ==> |passes[j]| == |init| && multiset(passes[j]) == multiset(init)
  }

  /** The passes of a run only rearrange the array it started from. */
  lemma PassesRearrange(init: seq<int>, blocks: seq<seq<nat>>)
    requires Blocks(blocks, |init|)
    ensures Rearrangements(init, Passes(init, blocks))
  {
    forall j | 0 <= j < |blocks|
      ensures |Passes(init, blocks)[j]| == |init| && multiset(Passes(init, blocks)[j]) == multiset(init)
    {
      ShuffleRunPermutes(init, blocks, j + 1);
    }
  }

  /**
   * The attempt loop of main on values, at the head of attempt k with
   * closest attempt snap, where passes[k] is what attempt k's shuffle
   * leaves: running out of passes stops the loop (the interrupt); a sorted
   * array stops it; otherwise is_sorted records the closest attempt, and
   * the attempt is counted and the loop goes on (no limit, or k below it)
   * or the loop stops at the limit.
   */
  function Loop(limit: int, passes: seq<seq<int>>, k: nat, snap: Snapshot): (r: Outcome)
    requires k <= |passes|
    ensures k <= r.attempts <= |passes|
    ensures r.Sorted? ==> r.attempts < |passes| && r.values == passes[r.attempts] && NonDecreasing(r.values)
    decreases |passes| - k
  {
    if k == |passes| then Cancelled(k, snap)
    else if NonDecreasing(passes[k]) then Sorted(k, passes[k])
    else
      var next := Track(snap, passes[k], k);
      if limit == Unlimited || k < limit then Loop(limit, passes, k + 1, next)
      else LimitReached(k, next)
  }

  /** What one run of the program reports, given its inputs. */
  ghost function Shotgun(cfg: Config, seeds: seq<nat>, blocks: seq<seq<nat>>): (r: Outcome)
    requires |seeds| == cfg.n && Blocks(blocks, cfg.n)
    ensures 0 <= r.attempts <= |blocks|
    ensures r.Sorted? ==> NonDecreasing(r.values)
  {
    Loop(cfg.limit, Passes(Populate(seeds), blocks), 0, Untouched(cfg.n))
  }

  /**
   * The snapshot is the best of the first `count` arrays: each of them was
   * unsorted with its first descent at or before snap.index. With no
   * descent beyond index 0 it is the untouched zero buffer; otherwise it is
   * the array of attempt snap.iteration itself.
   */
  ghost predicate ClosestOf(snap: Snapshot, n: int, passes: seq<seq<int>>, count: int)
    requires 0 <= count <= |passes|
  {
    && |snap.values| == n
    && 0 <= snap.index <= n - 2
    && (forall j :: 0 <= j < count ==>
          FirstDescent(passes[j]).Some? && FirstDescent(passes[j]).value <= snap.index)
    && (snap.index == 0 ==> snap.iteration == 0 && AllZero(snap.values))
    && (snap.index > 0 ==>
          && 0 <= snap.iteration < count
          && snap.values == passes[snap.iteration]
          && FirstDescent(snap.values) == Some(snap.index))
  }

  /**
   * What the program promises about a run from the array init through the
   * arrays passes: the attempts it reports as failed were unsorted; a
   * sorted result is the array of that attempt, in order and a permutation
   * of init, found within the limit; the limit stops the loop after exactly
   * max(L, 0) counted attempts; an interrupted run counted every attempt;
   * and the closest attempt it reports is the best of the failed ones.
   */
  ghost predicate Promised(limit: int, init: seq<int>, passes: seq<seq<int>>, o: Outcome) {
    && 0 <= o.attempts <= |passes| && UnsortedPasses(o) <= |passes|
    && (forall j :: 0 <= j < UnsortedPasses(o) ==> !NonDecreasing(passes[j]))
    && (o.Sorted? ==>
          && o.attempts < |passes|
          && (limit == Unlimited || o.attempts <= Max(limit, 0))
          && o.values == passes[o.attempts]
          && NonDecreasing(o.values)
          && multiset(o.values) == multiset(init))
    && (o.LimitReached? ==> limit != Unlimited && o.attempts == Max(limit, 0))
    && (o.Cancelled? ==> o.attempts == |passes| && (limit == Unlimited || |passes| <= Max(limit, 0)))
    && (!o.Sorted? ==> ClosestOf(o.closest, |init|, passes, UnsortedPasses(o)))
  }

  /** Every array a snapshot summarises was unsorted. */
  lemma ClosestOfUnsorted(snap: Snapshot, n: int, passes: seq<seq<int>>, count: int)
    requires 0 <= count <= |passes| && ClosestOf(snap, n, passes, count)
    ensures forall j :: 0 <= j < count ==> !NonDecreasing(passes[j])
  {
    forall j | 0 <= j < count
      ensures !NonDecreasing(passes[j])
    {
      assert FirstDescent(passes[j]).Some?;
    }
  }

  /**
   * The reported closest attempt has the longest sorted prefix of the
   * arrays it summarises; the "elements in ascending order" count that
   * the program prints for it (index + 1) is that prefix's length when an
   * attempt was recorded.
   */
  lemma ClosestIsLongest(snap: Snapshot, n: int, passes: seq<seq<int>>, count: int)
    requires 0 <= count <= |passes| && ClosestOf(snap, n, passes, count)
    ensures forall j :: 0 <= j < count ==> SortedPrefixLength(passes[j]) <= snap.index + 1
    ensures snap.index > 0 ==> SortedPrefixLength(snap.values) == snap.index + 1
  {
    forall j | 0 <= j < count
      ensures SortedPrefixLength(passes[j]) <= snap.index + 1
    {
      assert FirstDescent(passes[j]).Some?;
    }
  }

  /**
   * One more unsorted array, checked by is_sorted: the tracked snapshot
   * stays the best of the arrays so far.
   */
  lemma {:induction false} ClosestStep(snap: Snapshot, passes: seq<seq<int>>, k: nat)
    requires k < |passes| && |passes[k]| == |snap.values|
    requires ClosestOf(snap, |snap.values|, passes, k)
    requires !NonDecreasing(passes[k])
    ensures ClosestOf(Track(snap, passes[k], k), |snap.values|, passes, k + 1)
  {
    var next := Track(snap, passes[k], k);
    assert FirstDescent(passes[k]).Some?;
    forall j | 0 <= j < k + 1
      ensures FirstDescent(passes[j]).Some? && FirstDescent(passes[j]).value <= next.index
    {
      if j < k {
        assert FirstDescent(passes[j]).value <= snap.index;
      }
    }
  }

  /** The loop keeps its promises from any attempt k whose snapshot is the best so far. */
  lemma {:induction false} LoopPromised(limit: int, init: seq<int>, passes: seq<seq<int>>, k: nat, snap: Snapshot)
    requires Rearrangements(init, passes) && k <= |passes|
    requires ClosestOf(snap, |init|, passes, k)
    requires limit == Unlimited || k <= Max(limit, 0)
    ensures Promised(limit, init, passes, Loop(limit, passes, k, snap))
    decreases |passes| - k
  {
    ClosestOfUnsorted(snap, |init|, passes, k);
    if k < |passes| && !NonDecreasing(passes[k]) {
      ClosestStep(snap, passes, k);
      var next := Track(snap, passes[k], k);
      if limit == Unlimited || k < limit {
        LoopPromised(limit, init, passes, k + 1, next);
      } else {
        ClosestOfUnsorted(next, |init|, passes, k + 1);
      }
    }
  }

  /** A whole run keeps the program's promises. */
  lemma ShotgunPromised(cfg: Config, seeds: seq<nat>, blocks: seq<seq<nat>>)
    requires 2 <= cfg.n && |seeds| == cfg.n && Blocks(blocks, cfg.n)
    ensures Promised(cfg.limit, Populate(seeds), Passes(Populate(seeds), blocks), Shotgun(cfg, seeds, blocks))
  {
    var init := Populate(seeds);
    PassesRearrange(init, blocks);
    LoopPromised(cfg.limit, init, Passes(init, blocks), 0, Untouched(cfg.n));
  }

  /**
   * main after validation: fill the array, set up the run state, and run
   * the attempt loop. It reports exactly what Shotgun describes (and so
   * keeps the promises ShotgunPromised proves).
   */
  method Run(cfg: Config, seeds: seq<nat>, blocks: seq<seq<nat>>) returns (outcome: Outcome)
    requires 2 <= cfg.n <= MaxElements && |seeds| == cfg.n
    requires Blocks(blocks, cfg.n)
    ensures outcome == Shotgun(cfg, seeds, blocks)
  {
    var a := FillArray(seeds);
    var st := new RunState(cfg.n);
    assert st.Closest() == Untouched(cfg.n);
    outcome := MainLoop(cfg.limit, st, a, blocks);
  }

  /** Attempt k's array is its shuffle of the array the previous attempt left. */
  lemma NextPass(init: seq<int>, blocks: seq<seq<nat>>, k: nat)
    requires k < |blocks| && Blocks(blocks, |init|)
    ensures |blocks[k]| == |init|
    ensures Passes(init, blocks)[k] == ShuffleRun(init, blocks, k + 1)
    ensures Passes(init, blocks)[k] == Shuffled(ShuffleRun(init, blocks, k), blocks[k])
  {
    assert blocks[k] in blocks;
  }

  /**
   * main's attempt loop: shuffle, check, then stop as sorted, stop at the
   * limit, or count the attempt and go on, until the supply of draws runs
   * out. It ends with the outcome Loop describes from the starting state.
   */
  method MainLoop(limit: int, st: RunState, a: array<int>, blocks: seq<seq<nat>>) returns (outcome: Outcome)
    requires st.Valid() && a.Length == st.n && a != st.closestArray
    requires st.numSortAttempts == 0 && Blocks(blocks, st.n)
    modifies a, st, st.closestArray
    ensures outcome == Loop(limit, Passes(old(a[..]), blocks), 0, old(st.Closest()))
  {
    ghost var init := a[..];
    ghost var passes := Passes(init, blocks);
    ghost var k, cur, snap := 0, init, st.Closest();
    ghost var goal := Loop(limit, passes, k, snap);
    while st.numSortAttempts < |blocks|
      invariant st.Valid() && a.Length == st.n && a != st.closestArray
      invariant st.numSortAttempts == k <= |blocks| && st.Closest() == snap && a[..] == cur
      invariant cur == ShuffleRun(init, blocks, k)
      invariant Loop(limit, passes, k, snap) == goal
      decreases |blocks| - k
    {
      NextPass(init, blocks, k);
      var stop := Step(limit, st, a, blocks[st.numSortAttempts], passes, goal);
      if stop.Some? {
        return stop.value;
      }
      cur, snap := passes[k], st.Closest();
      st.CountAttempt();
      k := k + 1;
    }
    return Cancelled(st.numSortAttempts, st.Closest());
  }

  /**
   * One iteration of main's attempt loop up to its decision, where passes
   * holds the array each attempt's shuffle leaves: the pass and its check,
   * then stop as sorted or at the limit (with the final outcome), or report
   * that the attempt is to be counted and the loop to continue (with the
   * loop's outcome from the next attempt unchanged).
   */
  method Step(limit: int, st: RunState, a: array<int>, draws: seq<nat>,
              ghost passes: seq<seq<int>>, ghost goal: Outcome)
    returns (stop: Option<Outcome>)
    requires st.Valid() && a.Length == st.n && a != st.closestArray && |draws| == st.n
    requires 0 <= st.numSortAttempts < |passes|
    requires passes[st.numSortAttempts] == Shuffled(a[..], draws)
    requires Loop(limit, passes, st.numSortAttempts, st.Closest()) == goal
    modifies a, st`closestAttempt, st`closestAttemptItr, st.closestArray
    ensures st.Valid() && a[..] == passes[st.numSortAttempts]
    ensures st.Closest() == Track(old(st.Closest()), a[..], st.numSortAttempts)
    ensures stop.Some? ==> stop.value == goal
    ensures stop.None? ==> Loop(limit, passes, st.numSortAttempts + 1, st.Closest()) == goal
  {
    var sorted := Attempt(st, a, draws);
    if sorted {
      return Some(Sorted(st.numSortAttempts, a[..]));
    }
    // Both branches of main that count the attempt and continue.
    if limit == Unlimited || st.numSortAttempts < limit {
      return None;
    }
    return Some(LimitReached(st.numSortAttempts, st.Closest()));
  }

  /**
   * One pass of the main loop: shuffle the array with the pass's draws, then
   * check it with is_sorted, which keeps the closest attempt.
   */
  method Attempt(st: RunState, a: array<int>, draws: seq<nat>) returns (sorted: bool)
    requires st.Valid() && a.Length == st.n && a != st.closestArray && |draws| == st.n
    modifies a, st`closestAttempt, st`closestAttemptItr, st.closestArray
    ensures st.Valid()
    ensures a[..] == Shuffled(old(a[..]), draws)
    ensures sorted <==> NonDecreasing(a[..])
    ensures st.Closest() == Track(old(st.Closest()), a[..], st.numSortAttempts)
  {
    ShufflePass(a, draws);
    sorted := st.IsSorted(a);
  }
}
