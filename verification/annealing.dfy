/** simulatedAnnealing: a random initial assignment is improved by trying
    neighbours. A better or equally good neighbour always replaces the current
    solution; a worse one does so when the Metropolis test passes. The best
    solution seen so far is remembered, and the cooling schedule decides how
    many passes of `maxIter` tries are made. The random outcomes of every try
    are supplied by the caller. */
module Annealing {
  import opened Permutations
  import opened Costs
  import opened Generator
  import opened Neighbour
  import opened Schedule

  /** The four variables the search carries from try to try. */
  datatype State = State(current: seq<nat>, currentCost: int, best: seq<nat>, bestCost: int)

  /** The random outcomes of one try: the two positions `swapTasks` samples,
      and whether `random.random() < exp((currentCost - newCost) / temp)`
      holds when the neighbour is worse. */
  datatype Move = Move(pick: Pick, accept: bool)

  /** Every try samples two distinct positions below `n`. */
  predicate ValidMoves(moves: seq<Move>, n: nat) {
    forall i :: 0 <= i < |moves| ==> ValidPick(moves[i].pick, n)
  }

  /** Every pass is valid. */
  predicate ValidRounds(rounds: seq<seq<Move>>, n: nat) {
    forall p :: 0 <= p < |rounds| ==> ValidMoves(rounds[p], n)
  }

  /** What the search keeps true: both solutions are permutations of
      0..n-1, both stored costs are the costs of their solutions, and the best
      cost is at most the current one. */
  predicate Consistent(s: State, c: Matrix, n: nat) {
    SquareFor(c, n)
    && |s.current| == n && IsPermutation(s.current, n)
    && CostDefined(s.current, c) && s.currentCost == Cost(s.current, c)
    && |s.best| == n && IsPermutation(s.best, n)
    && CostDefined(s.best, c) && s.bestCost == Cost(s.best, c)
    && s.bestCost <= s.currentCost
  }

  /** The state before the first try: the generated solution is both the
      current and the best one. */
  function Seed(c: Matrix, n: nat, draws: seq<nat>): (s: State)
    requires SquareFor(c, n) && ValidShuffleDraws(draws, n)
    ensures Consistent(s, c, n)
    ensures s.current == GenerateInitialSolution(n, draws)
    ensures s.best == s.current && s.bestCost == s.currentCost
  {
    var solution := GenerateInitialSolution(n, draws);
    PermutationIff(solution, n);
    PermutationCostDefined(solution, c, n);
    State(solution, Cost(solution, c), solution, Cost(solution, c))
  }

  /** The Metropolis test `random.random() < exp((currentCost - newCost) / temp)`,
      evaluated only for a neighbour that is not better. For an equally good
      neighbour the exponent is 0, exp(0) = 1 and `random.random()` is below 1,
      so the test passes whatever the draw; for a worse one the draw decides. */
  function MetropolisPasses(currentCost: int, newCost: int, accept: bool): (passes: bool)
    ensures newCost == currentCost ==> passes
    ensures newCost > currentCost ==> (passes <==> accept)
  {
    newCost == currentCost || accept
  }

  /** One try of the inner loop. */
  function Step(c: Matrix, n: nat, s: State, m: Move): (r: State)
    requires Consistent(s, c, n) && ValidPick(m.pick, n)
    ensures Consistent(r, c, n)
    ensures var cand := SwapTasks(s.current, n, m.pick);
      && CostDefined(cand, c)
      // a neighbour at least as good is always taken
      && (Cost(cand, c) <= s.currentCost ==> r.current == cand)
      // a worse one is taken exactly when the Metropolis draw says so
      && (Cost(cand, c) > s.currentCost && m.accept ==> r.current == cand)
      && (Cost(cand, c) > s.currentCost && !m.accept ==> r == s)
    ensures r.current == s.current || r.current == SwapTasks(s.current, n, m.pick)
    // the best cost is the smaller of the old best and the new current cost
    ensures r.bestCost == if r.currentCost < s.bestCost then r.currentCost else s.bestCost
    // the best solution changes only on a strict improvement of the best cost
    ensures r.best == if r.currentCost < s.bestCost then r.current else s.best
    ensures !m.accept ==> r.currentCost <= s.currentCost
  {
    var cand := SwapTasks(s.current, n, m.pick);
    PermutationCostDefined(cand, c, n);
    var newCost := Cost(cand, c);
    if newCost < s.currentCost || MetropolisPasses(s.currentCost, newCost, m.accept) then
      if newCost < s.bestCost then State(cand, newCost, cand, newCost)
      else State(cand, newCost, s.best, s.bestCost)
    else s
  }

  /** The tries `moves` made one after another, from `s`. */
  function Run(c: Matrix, n: nat, s: State, moves: seq<Move>): (r: State)
    requires Consistent(s, c, n) && ValidMoves(moves, n)
    ensures Consistent(r, c, n)
    ensures r.bestCost <= s.bestCost
    decreases |moves|
  {
    if |moves| == 0 then s
    else
      var last := |moves| - 1;
      assert ValidMoves(moves[..last], n);
      Step(c, n, Run(c, n, s, moves[..last]), moves[last])
  }

  /** The passes `rounds` made one after another, from `s`. */
  function RunRounds(c: Matrix, n: nat, s: State, rounds: seq<seq<Move>>): (r: State)
    requires Consistent(s, c, n) && ValidRounds(rounds, n)
    ensures Consistent(r, c, n)
    ensures r.bestCost <= s.bestCost
    decreases |rounds|
  {
    if |rounds| == 0 then s
    else
      var last := |rounds| - 1;
      assert ValidRounds(rounds[..last], n);
      Run(c, n, RunRounds(c, n, s, rounds[..last]), rounds[last])
  }

  /** All tries of all passes, in order. */
  function Flatten(rounds: seq<seq<Move>>): seq<Move> {
    if |rounds| == 0 then [] else Flatten(rounds[..|rounds| - 1]) + rounds[|rounds| - 1]
  }

  /** The tries of `a` followed by those of `b` are the tries of `a + b`. */
  lemma {:induction false} RunAppend(c: Matrix, n: nat, s: State, a: seq<Move>, b: seq<Move>)
    requires Consistent(s, c, n) && ValidMoves(a, n) && ValidMoves(b, n)
    ensures ValidMoves(a + b, n)
    ensures Run(c, n, s, a + b) == Run(c, n, Run(c, n, s, a), b)
    decreases |b|
  {
    AppendValid(a, b, n);
    if |b| > 0 {
      var last := |b| - 1;
      var prev := b[..last];
      var ab := a + b;
      assert ValidMoves(prev, n);
      assert ab[..|ab| - 1] == a + prev;
      assert ab[|ab| - 1] == b[last];
      RunAppend(c, n, s, a, prev);
      RunLast(c, n, s, ab);
      RunLast(c, n, Run(c, n, s, a), b);
    } else {
      assert a + b == a;
    }
  }

  /** The last try of a run is one step after the others. */
  lemma RunLast(c: Matrix, n: nat, s: State, moves: seq<Move>)
    requires Consistent(s, c, n) && ValidMoves(moves, n) && 0 < |moves|
    ensures ValidMoves(moves[..|moves| - 1], n)
    ensures Run(c, n, s, moves) == Step(c, n, Run(c, n, s, moves[..|moves| - 1]), moves[|moves| - 1])
  {
  }

  lemma AppendValid(a: seq<Move>, b: seq<Move>, n: nat)
    requires ValidMoves(a, n) && ValidMoves(b, n)
    ensures ValidMoves(a + b, n)
  {
    forall i | 0 <= i < |a + b|
      ensures ValidPick((a + b)[i].pick, n)
    {
      if i < |a| {
        assert (a + b)[i] == a[i];
      } else {
        assert (a + b)[i] == b[i - |a|];
      }
    }
  }

  lemma {:induction false} FlattenValid(rounds: seq<seq<Move>>, n: nat)
    requires ValidRounds(rounds, n)
    ensures ValidMoves(Flatten(rounds), n)
    decreases |rounds|
  {
    if |rounds| > 0 {
      var last := |rounds| - 1;
      FlattenValid(rounds[..last], n);
      assert ValidMoves(rounds[last], n);
    }
  }

  /** Running pass after pass is running all their tries in one go: the
      passes only matter to the temperature, not to the state. */
  lemma {:induction false} RunRoundsFlat(c: Matrix, n: nat, s: State, rounds: seq<seq<Move>>)
    requires Consistent(s, c, n) && ValidRounds(rounds, n)
    ensures ValidMoves(Flatten(rounds), n)
    ensures RunRounds(c, n, s, rounds) == Run(c, n, s, Flatten(rounds))
    decreases |rounds|
  {
    FlattenValid(rounds, n);
    if |rounds| > 0 {
      var last := |rounds| - 1;
      assert ValidRounds(rounds[..last], n);
      RunRoundsFlat(c, n, s, rounds[..last]);
      FlattenValid(rounds[..last], n);
      RunAppend(c, n, s, Flatten(rounds[..last]), rounds[last]);
    }
  }

  /** Passes without tries leave the state alone: with `maxIter == 0` the
      search returns its seed. */
  lemma {:induction false} EmptyRoundsKeepState(c: Matrix, n: nat, s: State, rounds: seq<seq<Move>>)
    requires Consistent(s, c, n) && ValidRounds(rounds, n)
    requires forall p :: 0 <= p < |rounds| ==> rounds[p] == []
    ensures RunRounds(c, n, s, rounds) == s
    decreases |rounds|
  {
    if |rounds| > 0 {
      var last := |rounds| - 1;
      assert ValidRounds(rounds[..last], n);
      EmptyRoundsKeepState(c, n, s, rounds[..last]);
      assert rounds[last] == [];
    }
  }

  /** One more try extends a run by one step. */
  lemma RunSnoc(c: Matrix, n: nat, s: State, moves: seq<Move>, i: nat)
    requires Consistent(s, c, n) && ValidMoves(moves, n) && i < |moves|
    ensures ValidMoves(moves[..i], n) && ValidMoves(moves[..i + 1], n)
    ensures Run(c, n, s, moves[..i + 1]) == Step(c, n, Run(c, n, s, moves[..i]), moves[i])
  {
    assert moves[..i + 1][..i] == moves[..i];
    assert moves[..i + 1][i] == moves[i];
    assert ValidMoves(moves[..i], n) && ValidMoves(moves[..i + 1], n);
  }

  /** One more pass extends a run of passes by that pass's tries. */
  lemma RunRoundsSnoc(c: Matrix, n: nat, s: State, rounds: seq<seq<Move>>, p: nat)
    requires Consistent(s, c, n) && ValidRounds(rounds, n) && p < |rounds|
    ensures ValidRounds(rounds[..p], n) && ValidRounds(rounds[..p + 1], n) && ValidMoves(rounds[p], n)
    ensures RunRounds(c, n, s, rounds[..p + 1]) == Run(c, n, RunRounds(c, n, s, rounds[..p]), rounds[p])
  {
    assert rounds[..p + 1][..p] == rounds[..p];
    assert rounds[..p + 1][p] == rounds[p];
    assert ValidRounds(rounds[..p], n) && ValidRounds(rounds[..p + 1], n);
  }

  lemma PrefixOfPrefix(moves: seq<Move>, m: nat, i: nat)
    requires i <= m <= |moves|
    ensures moves[..m][..i] == moves[..i]
  {
  }

  /** The best cost never goes up from one try to a later one. */
  lemma BestNeverIncreases(c: Matrix, n: nat, s: State, moves: seq<Move>, i: nat, j: nat)
    requires Consistent(s, c, n) && ValidMoves(moves, n) && i <= j <= |moves|
    ensures ValidMoves(moves[..i], n) && ValidMoves(moves[..j], n)
    ensures Run(c, n, s, moves[..j]).bestCost <= Run(c, n, s, moves[..i]).bestCost
  {
    var a, b := moves[..i], moves[i..j];
    assert a + b == moves[..j];
    assert ValidMoves(a, n) && ValidMoves(b, n);
    RunAppend(c, n, s, a, b);
  }

  /** The best cost is at most the cost of every solution the search was at. */
  lemma {:induction false} BestBelowEveryVisited(c: Matrix, n: nat, s: State, moves: seq<Move>, i: nat)
    requires Consistent(s, c, n) && ValidMoves(moves, n) && i <= |moves|
    ensures ValidMoves(moves[..i], n)
    ensures Run(c, n, s, moves).bestCost <= Run(c, n, s, moves[..i]).currentCost
  {
    assert moves[..|moves|] == moves;
    BestNeverIncreases(c, n, s, moves, i, |moves|);
  }

  /** The last try either keeps the best solution and cost, or makes the
      solution it reaches the best one. */
  lemma LastTryBest(c: Matrix, n: nat, s: State, moves: seq<Move>)
    requires Consistent(s, c, n) && ValidMoves(moves, n) && 0 < |moves|
    ensures ValidMoves(moves[..|moves| - 1], n)
    ensures var q := Run(c, n, s, moves[..|moves| - 1]);
      var r := Run(c, n, s, moves);
      || (r.best == q.best && r.bestCost == q.bestCost)
      || (r.best == r.current && r.bestCost == r.currentCost)
  {
    RunLast(c, n, s, moves);
  }

  /** ... and it is the best cost of the start (`i == 0`) or the cost of the
      solution the search was at after `i` tries, which is then the best
      solution. */
  lemma {:induction false} BestWasVisited(c: Matrix, n: nat, s: State, moves: seq<Move>) returns (i: nat)
    requires Consistent(s, c, n) && ValidMoves(moves, n)
    ensures i <= |moves| && ValidMoves(moves[..i], n)
    ensures i == 0 ==> Run(c, n, s, moves).best == s.best && Run(c, n, s, moves).bestCost == s.bestCost
    ensures 0 < i ==> (Run(c, n, s, moves).best == Run(c, n, s, moves[..i]).current
                       && Run(c, n, s, moves).bestCost == Run(c, n, s, moves[..i]).currentCost)
    decreases |moves|
  {
    if |moves| == 0 {
      i := 0;
    } else {
      var last := |moves| - 1;
      var prev := moves[..last];
      LastTryBest(c, n, s, moves);
      var q := Run(c, n, s, prev);
      var r := Run(c, n, s, moves);
      if r.best == q.best && r.bestCost == q.bestCost {
        i := BestWasVisited(c, n, s, prev);
        PrefixOfPrefix(moves, last, i);
      } else {
        i := |moves|;
        assert moves[..i] == moves;
      }
    }
  }

  /** Without any accepted worse neighbour the search is a descent: the
      current cost never rises, and the best cost stays equal to it. */
  lemma {:induction false} HillClimbing(c: Matrix, n: nat, s: State, moves: seq<Move>)
    requires Consistent(s, c, n) && ValidMoves(moves, n)
    requires s.bestCost == s.currentCost
    requires forall i :: 0 <= i < |moves| ==> !moves[i].accept
    ensures Run(c, n, s, moves).currentCost <= s.currentCost
    ensures Run(c, n, s, moves).bestCost == Run(c, n, s, moves).currentCost
    decreases |moves|
  {
    if |moves| > 0 {
      var last := |moves| - 1;
      assert ValidMoves(moves[..last], n);
      HillClimbing(c, n, s, moves[..last]);
      assert !moves[last].accept;
    }
  }

  /** What the whole search returns: a permutation whose stored cost is its
      cost and is at most the cost of the generated starting solution. */
  lemma SearchOutcome(c: Matrix, n: nat, draws: seq<nat>, rounds: seq<seq<Move>>)
    requires SquareFor(c, n) && ValidShuffleDraws(draws, n) && ValidRounds(rounds, n)
    ensures var r := RunRounds(c, n, Seed(c, n, draws), rounds);
      && IsPermutation(r.best, n) && CostDefined(r.best, c) && r.bestCost == Cost(r.best, c)
      && CostDefined(GenerateInitialSolution(n, draws), c)
      && r.bestCost <= Cost(GenerateInitialSolution(n, draws), c)
  {
    var seed := Seed(c, n, draws);
    assert seed.best == GenerateInitialSolution(n, draws);
  }

  /** One pass of the outer loop: `for _ in range(maxIter)` with the tries
      `tries`, from the variables `s`. */
  method AnnealingPass(c: Matrix, n: nat, s: State, tries: seq<Move>) returns (r: State)
    requires Consistent(s, c, n) && ValidMoves(tries, n)
    ensures r == Run(c, n, s, tries)
    ensures Consistent(r, c, n) && r.bestCost <= s.bestCost
  {
    var current, currentCost, best, bestSoFar := s.current, s.currentCost, s.best, s.bestCost;
    for it := 0 to |tries|
      invariant ValidMoves(tries[..it], n)
      invariant State(current, currentCost, best, bestSoFar) == Run(c, n, s, tries[..it])
    {
      ghost var before := State(current, currentCost, best, bestSoFar);
      var move := tries[it];
      var newSolution := SwapTasks(current, n, move.pick);
      PermutationCostDefined(newSolution, c, n);
      var newCost := CalculateCost(newSolution, c);
      if newCost < currentCost || MetropolisPasses(currentCost, newCost, move.accept) {
        current, currentCost := newSolution, newCost;
        if currentCost < bestSoFar {
          best, bestSoFar := current, currentCost;
        }
      }
      assert State(current, currentCost, best, bestSoFar) == Step(c, n, before, move);
      RunSnoc(c, n, s, tries, it);
    }
    assert tries[..|tries|] == tries;
    r := State(current, currentCost, best, bestSoFar);
  }

  /** The outer loop: a pass per temperature above `minTemp`, the
      temperature multiplied by `coolingRate` after each. */
  method CoolingLoop(c: Matrix, n: nat, initialTemp: real, coolingRate: real, minTemp: real,
                     s: State, moves: seq<seq<Move>>) returns (r: State)
    requires Consistent(s, c, n) && ValidRounds(moves, n)
    requires Terminates(initialTemp, coolingRate, minTemp)
    requires |moves| == CoolingRounds(initialTemp, coolingRate, minTemp)
    ensures r == RunRounds(c, n, s, moves)
    ensures Consistent(r, c, n) && r.bestCost <= s.bestCost
  {
    var temp := initialTemp;
    var pass := 0;
    r := s;
    while temp > minTemp
      invariant 0 <= pass <= |moves|
      invariant temp == TempAfter(initialTemp, coolingRate, pass)
      invariant ValidRounds(moves[..pass], n)
      invariant r == RunRounds(c, n, s, moves[..pass])
      decreases |moves| - pass
    {
      assert pass < |moves|;
      RunRoundsSnoc(c, n, s, moves, pass);
      r := AnnealingPass(c, n, r, moves[pass]);
      CoolOnce(initialTemp, coolingRate, pass, temp);
      temp := temp * coolingRate;
      pass := pass + 1;
    }
    assert moves[..pass] == moves;
  }

  /** simulatedAnnealing with its random outcomes supplied: `draws` for the
      shuffle of the initial solution and `moves[p]` for the `maxIter` tries of
      pass `p`. There is one pass per temperature above `minTemp`. */
  method SimulatedAnnealing(c: Matrix, n: nat, initialTemp: real, coolingRate: real, minTemp: real,
                            maxIter: nat, draws: seq<nat>, moves: seq<seq<Move>>)
    returns (bestSolution: seq<nat>, bestCost: int)
    requires SquareFor(c, n)
    requires Terminates(initialTemp, coolingRate, minTemp)
    requires ValidShuffleDraws(draws, n)
    requires |moves| == CoolingRounds(initialTemp, coolingRate, minTemp)
    requires ValidRounds(moves, n)
    requires forall p :: 0 <= p < |moves| ==> |moves[p]| == maxIter
    ensures var r := RunRounds(c, n, Seed(c, n, draws), moves);
      bestSolution == r.best && bestCost == r.bestCost
    ensures IsPermutation(bestSolution, n)
    ensures CostDefined(bestSolution, c) && bestCost == Cost(bestSolution, c)
    ensures CostDefined(GenerateInitialSolution(n, draws), c)
    ensures bestCost <= Cost(GenerateInitialSolution(n, draws), c)
    ensures initialTemp <= minTemp || maxIter == 0 ==> bestSolution == GenerateInitialSolution(n, draws)
  {
    var current := GenerateInitialSolution(n, draws);
    PermutationCostDefined(current, c, n);
    var currentCost := CalculateCost(current, c);
    var seed := State(current, currentCost, current, currentCost);
    assert seed == Seed(c, n, draws);
    var r := CoolingLoop(c, n, initialTemp, coolingRate, minTemp, seed, moves);
    SearchOutcome(c, n, draws, moves);
    bestSolution, bestCost := r.best, r.bestCost;
    if initialTemp <= minTemp {
      NoRoundsIff(initialTemp, coolingRate, minTemp);
    }
    if maxIter == 0 {
      EmptyRoundsKeepState(c, n, seed, moves);
    }
  }

  /** On the example matrix no search returns less than the optimum 13. */
  lemma ExampleNeverBelowOptimum(draws: seq<nat>, rounds: seq<seq<Move>>)
    requires ValidShuffleDraws(draws, 3) && ValidRounds(rounds, 3)
    ensures SquareFor(ExampleMatrix, 3)
    ensures RunRounds(ExampleMatrix, 3, Seed(ExampleMatrix, 3, draws), rounds).bestCost >= 13
  {
    assert SquareFor(ExampleMatrix, 3);
    var r := RunRounds(ExampleMatrix, 3, Seed(ExampleMatrix, 3, draws), rounds);
    ExampleCosts();
    assert IsPermutation(r.best, 3);
  }

  /** The schedule 2, 0.5, 1 makes a single pass. */
  lemma ExampleRounds()
    ensures CoolingRounds(2.0, 0.5, 1.0) == 1
  {
    assert TempAfter(2.0, 0.5, 0) == 2.0;
    CoolOnce(2.0, 0.5, 0, 2.0);
    CoolingRoundsUnique(2.0, 0.5, 1.0, 1);
  }

  /** The draws [1, 2] leave the shuffle of three tasks at the identity. */
  lemma ExampleShuffle()
    ensures GenerateInitialSolution(3, [1, 2]) == [0, 1, 2]
  {
    assert Range(3) == [0, 1, 2];
    assert Swap([0, 1, 2], 2, 2) == [0, 1, 2];
    assert Swap([0, 1, 2], 1, 1) == [0, 1, 2];
    assert ShuffleDown([0, 1, 2], [1, 2], 0) == [0, 1, 2];
    assert ShuffleDown([0, 1, 2], [1, 2], 1) == [0, 1, 2];
  }

  /** A complete search on the example matrix: the identity (cost 15) is the
      seed, the single pass makes one try, which exchanges tasks 0 and 2 and
      reaches [2, 1, 0], an optimal assignment of cost 13, returned as the
      best. */
  lemma ExampleSearch()
    ensures var r := RunRounds(ExampleMatrix, 3, Seed(ExampleMatrix, 3, [1, 2]), [[Move(Pick(0, 2), false)]]);
      r.best == [2, 1, 0] && r.bestCost == 13
  {
    var seed := ExampleSeed();
    var m := Move(Pick(0, 2), false);
    var r := ExampleStep(seed, m);
    SinglePass(ExampleMatrix, 3, seed, m);
  }

  /** A single pass of a single try is one step. */
  lemma SinglePass(c: Matrix, n: nat, s: State, m: Move)
    requires Consistent(s, c, n) && ValidPick(m.pick, n)
    ensures ValidRounds([[m]], n)
    ensures RunRounds(c, n, s, [[m]]) == Step(c, n, s, m)
  {
    var rounds := [[m]];
    assert rounds[..0] == [] && [m][..0] == [];
    assert ValidRounds(rounds, n);
    assert RunRounds(c, n, s, rounds) == Run(c, n, s, [m]);
  }

  lemma ExampleSeed() returns (seed: State)
    ensures seed == Seed(ExampleMatrix, 3, [1, 2]) && seed == State([0, 1, 2], 15, [0, 1, 2], 15)
  {
    assert ValidShuffleDraws([1, 2], 3);
    assert SquareFor(ExampleMatrix, 3);
    seed := Seed(ExampleMatrix, 3, [1, 2]);
    ExampleShuffle();
    assert seed.current == [0, 1, 2] && seed.best == seed.current;
    CostOfThree([0, 1, 2], ExampleMatrix);
    assert seed.currentCost == 15 && seed.bestCost == 15;
  }

  lemma ExampleStep(seed: State, m: Move) returns (r: State)
    requires seed == State([0, 1, 2], 15, [0, 1, 2], 15) && m == Move(Pick(0, 2), false)
    ensures Consistent(seed, ExampleMatrix, 3)
    ensures r == Step(ExampleMatrix, 3, seed, m) && r == State([2, 1, 0], 13, [2, 1, 0], 13)
  {
    ExampleSeedConsistent(seed);
    ExampleNeighbour();
    r := Step(ExampleMatrix, 3, seed, m);
  }

  lemma ExampleSeedConsistent(seed: State)
    requires seed == State([0, 1, 2], 15, [0, 1, 2], 15)
    ensures Consistent(seed, ExampleMatrix, 3)
  {
    assert Range(3) == [0, 1, 2];
    assert IsPermutation([0, 1, 2], 3);
    assert SquareFor(ExampleMatrix, 3);
    CostOfThree([0, 1, 2], ExampleMatrix);
  }

  lemma ExampleNeighbour()
    ensures SwapTasks([0, 1, 2], 3, Pick(0, 2)) == [2, 1, 0]
    ensures CostDefined([2, 1, 0], ExampleMatrix) && Cost([2, 1, 0], ExampleMatrix) == 13
  {
    CostOfThree([2, 1, 0], ExampleMatrix);
  }
}
