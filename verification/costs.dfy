/** The cost of an assignment (calculateCost). The matrix is indexed
    agent-major, `c[agent][task]`, as the solver indexes it. */
module Costs {
  import opened Permutations

  /** A cost matrix: row `a` holds the costs of agent `a`, one per task. */
  type Matrix = seq<seq<int>>

  /** Every entry `c[p[t]][t]` that the cost of `p` reads exists. */
  predicate CostDefined(p: seq<nat>, c: Matrix) {
    forall t :: 0 <= t < |p| ==> p[t] < |c| && t < |c[p[t]]|
  }

  /** `c` has at least `n` rows, each with at least `n` entries: the shape
      the solver needs for a problem of size `n`. */
  predicate SquareFor(c: Matrix, n: nat) {
    n <= |c| && forall a :: 0 <= a < n ==> n <= |c[a]|
  }

  /** Reference definition: the sum over tasks `t` of `c[p[t]][t]`. */
  function Cost(p: seq<nat>, c: Matrix): int
    requires CostDefined(p, c)
    decreases |p|
  {
    if |p| == 0 then 0
    else Cost(p[..|p| - 1], c) + c[p[|p| - 1]][|p| - 1]
  }

  /** The accumulation loop over `enumerate(solution)`. */
  method CalculateCost(solution: seq<nat>, c: Matrix) returns (cost: int)
    requires CostDefined(solution, c)
    ensures cost == Cost(solution, c)
  {
    cost := 0;
    for task := 0 to |solution|
      invariant CostDefined(solution[..task], c)
      invariant cost == Cost(solution[..task], c)
    {
      var agent := solution[task];
      cost := cost + c[agent][task];
      assert solution[..task + 1][..task] == solution[..task];
    }
    assert solution[..|solution|] == solution;
  }

  /** Every permutation of 0..n-1 has a defined cost on a matrix of shape `n`. */
  lemma PermutationCostDefined(p: seq<nat>, c: Matrix, n: nat)
    requires IsPermutation(p, n) && SquareFor(c, n)
    ensures CostDefined(p, c)
  {
    PermutationIff(p, n);
  }

  /** The shape requirement is exactly what it takes for every permutation
      of 0..n-1 to have a defined cost. */
  lemma SquareForIff(c: Matrix, n: nat)
    ensures SquareFor(c, n) <==> forall p :: IsPermutation(p, n) ==> CostDefined(p, c)
  {
    if SquareFor(c, n) {
      forall p | IsPermutation(p, n)
        ensures CostDefined(p, c)
      {
        PermutationCostDefined(p, c, n);
      }
    }
    if forall p :: IsPermutation(p, n) ==> CostDefined(p, c) {
      forall a | 0 <= a < n
        ensures a < |c| && n <= |c[a]|
      {
        // the last task of Swap(Range(n), n - 1, a) is given to agent a
        var p := Swap(Range(n), n - 1, a);
        assert IsPermutation(p, n);
        assert p[n - 1] == a;
      }
      if n > 0 {
        var p := Range(n);
        assert IsPermutation(p, n) && p[n - 1] == n - 1;
      }
    }
  }

  /** Changing the agent of task `i` to `v` changes the cost by exactly the
      difference of the two entries of column `i`. */
  lemma {:induction false} CostUpdate(p: seq<nat>, c: Matrix, i: nat, v: nat)
    requires i < |p| && v < |c| && i < |c[v]|
    requires CostDefined(p, c) && CostDefined(p[i := v], c)
    ensures Cost(p[i := v], c) == Cost(p, c) - c[p[i]][i] + c[v][i]
    decreases |p|
  {
    var q := p[i := v];
    var last := |p| - 1;
    var pre := p[..last];
    assert Cost(q, c) == Cost(q[..last], c) + c[q[last]][last];
    assert Cost(p, c) == Cost(pre, c) + c[p[last]][last];
    if i < last {
      assert q[..last] == pre[i := v] && q[last] == p[last];
      CostUpdate(pre, c, i, v);
    } else {
      assert q[..last] == pre;
    }
  }

  /** The cost of a neighbour follows from the cost of the solution and the
      four matrix entries a swap touches. */
  lemma SwapCost(p: seq<nat>, c: Matrix, i: nat, j: nat)
    requires i < |p| && j < |p| && i != j
    requires CostDefined(p, c) && CostDefined(Swap(p, i, j), c)
    ensures Cost(Swap(p, i, j), c)
         == Cost(p, c) - c[p[i]][i] - c[p[j]][j] + c[p[j]][i] + c[p[i]][j]
  {
    var q := p[i := p[j]];
    assert CostDefined(q, c) by {
      forall t | 0 <= t < |q|
        ensures q[t] < |c| && t < |c[q[t]]|
      {
        assert q[t] == Swap(p, i, j)[t] || t == j;
      }
    }
    CostUpdate(p, c, i, p[j]);
    CostUpdate(q, c, j, p[i]);
  }

  /** The example matrix of the solver's driver script. */
  const ExampleMatrix: Matrix := [[4, 5, 6], [2, 4, 6], [3, 5, 7]]

  lemma CostOfThree(p: seq<nat>, c: Matrix)
    requires |p| == 3 && CostDefined(p, c)
    ensures Cost(p, c) == c[p[0]][0] + c[p[1]][1] + c[p[2]][2]
  {
    var p2 := p[..2];
    var p1 := p2[..1];
    assert p1[..0] == [];
    assert Cost(p1, c) == c[p[0]][0];
    assert Cost(p2, c) == Cost(p1, c) + c[p[1]][1];
  }

  /** On the example matrix `[1, 2, 0]` costs 2 + 5 + 6 = 13, the identity
      costs 15, and no permutation costs less than 13. */
  lemma ExampleCosts()
    ensures Cost([1, 2, 0], ExampleMatrix) == 13
    ensures Cost([0, 1, 2], ExampleMatrix) == 15
    ensures forall p :: IsPermutation(p, 3) ==> CostDefined(p, ExampleMatrix) && Cost(p, ExampleMatrix) >= 13
  {
    CostOfThree([1, 2, 0], ExampleMatrix);
    CostOfThree([0, 1, 2], ExampleMatrix);
    forall p | IsPermutation(p, 3)
      ensures CostDefined(p, ExampleMatrix) && Cost(p, ExampleMatrix) >= 13
    {
      PermutationIff(p, 3);
      PermutationCostDefined(p, ExampleMatrix, 3);
      CostOfThree(p, ExampleMatrix);
      assert p[0] < 3 && p[1] < 3 && p[2] < 3;
      assert p[0] != p[1] && p[0] != p[2] && p[1] != p[2];
    }
  }
}
