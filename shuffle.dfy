/**
 * The shotgun shuffle: for each index i in turn, swap the element at i with
 * the element at a position drawn from rand() % n. The draws are inputs here
 * (the raw non-negative values rand() returned); the model applies the same
 * `% n` the program does.
 */
module Shuffle {

  /** Exchange the elements at i and j (a no-op when i == j). */
  function Swap(s: seq<int>, i: nat, j: nat): (r: seq<int>)
    requires i < |s| && j < |s|
    ensures |r| == |s| && r[i] == s[j] && r[j] == s[i]
    ensures forall k :: 0 <= k < |s| && k != i && k != j ==> r[k] == s[k]
  {
    s[i := s[j]][j := s[i]]
  }

  /**
   * The rest of one pass, from step i on: step i swaps index i with index
   * draws[i] % n, then the pass goes on from i + 1.
   */
  function ShuffleFrom(s: seq<int>, draws: seq<nat>, i: nat): (r: seq<int>)
    requires i <= |s| == |draws|
    ensures |r| == |s|
    decreases |s| - i
  {
    if i == |s| then s
    else ShuffleFrom(Swap(s, i, draws[i] % |s|), draws, i + 1)
  }

  /** One whole pass: n swaps, one per index. */
  function Shuffled(s: seq<int>, draws: seq<nat>): (r: seq<int>)
    requires |draws| == |s|
    ensures |r| == |s|
  {
    ShuffleFrom(s, draws, 0)
  }

  /** A swap only rearranges the elements. */
  lemma SwapPermutes(s: seq<int>, i: nat, j: nat)
    requires i < |s| && j < |s|
    ensures multiset(Swap(s, i, j)) == multiset(s)
  {
  }

  /** The remaining swaps of a pass, whatever the draws, only rearrange the elements. */
  lemma {:induction false} ShuffleFromPermutes(s: seq<int>, draws: seq<nat>, i: nat)
    requires i <= |s| == |draws|
    ensures multiset(ShuffleFrom(s, draws, i)) == multiset(s)
    decreases |s| - i
  {
    if i < |s| {
      var t := Swap(s, i, draws[i] % |s|);
      SwapPermutes(s, i, draws[i] % |s|);
      ShuffleFromPermutes(t, draws, i + 1);
    }
  }

  /** A whole pass only rearranges the elements. */
  lemma ShuffledPermutes(s: seq<int>, draws: seq<nat>)
    requires |draws| == |s|
    ensures multiset(Shuffled(s, draws)) == multiset(s)
  {
    ShuffleFromPermutes(s, draws, 0);
  }

  /** Every block of draws has one draw per element. */
  predicate Blocks(blocks: seq<seq<nat>>, n: nat) {
    forall b :: b in blocks ==> |b| == n
  }

  /** The array after k successive passes, pass j using blocks[j]. */
  function ShuffleRun(s: seq<int>, blocks: seq<seq<nat>>, k: nat): (r: seq<int>)
    requires k <= |blocks| && Blocks(blocks, |s|)
    ensures |r| == |s|
    decreases k
  {
    if k == 0 then s
    else Shuffled(ShuffleRun(s, blocks, k - 1), blocks[k - 1])
  }

  /** Any number of passes leaves a permutation of the starting array. */
  lemma {:induction false} ShuffleRunPermutes(s: seq<int>, blocks: seq<seq<nat>>, k: nat)
    requires k <= |blocks| && Blocks(blocks, |s|)
    ensures multiset(ShuffleRun(s, blocks, k)) == multiset(s)
  {
    if k > 0 {
      ShuffleRunPermutes(s, blocks, k - 1);
      var t := ShuffleRun(s, blocks, k - 1);
      var b := blocks[k - 1];
      assert b in blocks;
      ShuffledPermutes(t, b);
      assert ShuffleRun(s, blocks, k) == Shuffled(t, b);
    }
  }

  /**
   * The shuffle loop of the program's main sorting loop, in place: the
   * array ends as one pass over its old contents (a permutation of them,
   * by ShuffledPermutes).
   */
  method ShufflePass(a: array<int>, draws: seq<nat>)
    requires |draws| == a.Length
    modifies a
    ensures a[..] == Shuffled(old(a[..]), draws)
  {
    for i := 0 to a.Length
      invariant ShuffleFrom(a[..], draws, i) == Shuffled(old(a[..]), draws)
    {
      var pos := draws[i] % a.Length;
      var temp := a[i];
      a[i] := a[pos];
      a[pos] := temp;
    }
  }
}
