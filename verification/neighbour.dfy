/** swapTasks: a neighbouring solution is the current one with the agents of
    two distinct positions exchanged. The two positions come from
    `random.sample(range(n), 2)`; here they are supplied by the caller. */
module Neighbour {
  import opened Permutations

  /** The two positions `random.sample(range(n), 2)` returns, in order. */
  datatype Pick = Pick(first: nat, second: nat)

  /** A pick the sampler can return: two different values below `n`. */
  predicate ValidPick(pick: Pick, n: nat) {
    pick.first < n && pick.second < n && pick.first != pick.second
  }

  /** The sampler has something to return exactly when `n >= 2`; for smaller
      `n` it raises instead. */
  lemma PickExistsIff(n: nat)
    ensures (exists pick :: ValidPick(pick, n)) <==> 2 <= n
  {
    if 2 <= n {
      assert ValidPick(Pick(0, 1), n);
    }
  }

  /** The neighbour of `solution` under `pick`. */
  function SwapTasks(solution: seq<nat>, n: nat, pick: Pick): (r: seq<nat>)
    requires ValidPick(pick, n)
    requires pick.first < |solution| && pick.second < |solution|
    ensures 2 <= n
    ensures |r| == |solution|
    ensures r[pick.first] == solution[pick.second] && r[pick.second] == solution[pick.first]
    ensures forall k :: 0 <= k < |r| && k != pick.first && k != pick.second ==> r[k] == solution[k]
    ensures IsPermutation(r, n) <==> IsPermutation(solution, n)
    ensures Distinct(solution) ==> r != solution
  {
    SwapPreservesPermutation(solution, pick.first, pick.second, n);
    Swap(solution, pick.first, pick.second)
  }

  /** The order of the two sampled positions does not matter. */
  lemma SwapTasksSymmetric(solution: seq<nat>, n: nat, pick: Pick)
    requires ValidPick(pick, n)
    requires pick.first < |solution| && pick.second < |solution|
    ensures ValidPick(Pick(pick.second, pick.first), n)
    ensures SwapTasks(solution, n, Pick(pick.second, pick.first)) == SwapTasks(solution, n, pick)
  {
  }

  /** Applying the same pick again gives back the original solution, so the
      neighbour relation is symmetric. */
  lemma SwapTasksInvolution(solution: seq<nat>, n: nat, pick: Pick)
    requires ValidPick(pick, n)
    requires pick.first < |solution| && pick.second < |solution|
    ensures SwapTasks(SwapTasks(solution, n, pick), n, pick) == solution
  {
    SwapInvolution(solution, pick.first, pick.second);
  }

  /** A pick that exchanges two different agents always yields a different
      solution, and the neighbour differs from the solution at exactly the two
      picked positions. */
  lemma SwapTasksChangesTwo(solution: seq<nat>, n: nat, pick: Pick)
    requires ValidPick(pick, n) && IsPermutation(solution, n)
    ensures pick.first < |solution| && pick.second < |solution|
    ensures forall k :: 0 <= k < |solution| ==>
              (SwapTasks(solution, n, pick)[k] != solution[k] <==> k == pick.first || k == pick.second)
  {
    PermutationIff(solution, n);
    var r := SwapTasks(solution, n, pick);
    forall k | 0 <= k < |solution|
      ensures r[k] != solution[k] <==> k == pick.first || k == pick.second
    {
      if k == pick.first || k == pick.second {
        assert solution[pick.first] != solution[pick.second];
      }
    }
  }
}
