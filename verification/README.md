# Simulated annealing for the assignment problem

This is a Dafny model of the simulated-annealing solver in
`complete_Assignment.py`. The solver works on a square assignment problem. A
solution is a list whose position `t` is a task and whose value is the agent
doing it, so a solution is a permutation of `0..n-1`. The cost of a solution
is the sum of `c[agent][task]` over all tasks.

The search works like this:

- It starts from a shuffled `list(range(n))`.
- Each try swaps the agents of two sampled positions.
- A neighbour replaces the current solution when it is cheaper or when the
  Metropolis test passes.
- The best solution seen is remembered.
- The temperature is multiplied by the cooling rate after each pass of
  `max_iter` tries. The search stops once the temperature is at most the
  minimum.

The modules follow the solver's functions:

| module | file | models |
|---|---|---|
| `Permutations` | permutations.dfy | solutions as permutations; the two-position swap |
| `Costs` | costs.dfy | `calculateCost` and a reference definition of the cost |
| `Generator` | generator.dfy | `generateInitialSolution`, i.e. the Fisher–Yates walk of `random.shuffle` |
| `Neighbour` | neighbour.dfy | `swapTasks` |
| `Schedule` | schedule.dfy | the cooling schedule: how many passes the outer loop makes |
| `Annealing` | annealing.dfy | `simulatedAnnealing`: one try, one pass, the whole search |

Randomness is supplied by the caller as data:

- `draws`: the shuffle's draws. `draws[i - 1]` is the index in `[0, i]` drawn
  for position `i`.
- `Pick(first, second)`: what `random.sample(range(n), 2)` returns for a try.
- `Move.accept`: the outcome of `random.random() < exp((currentCost - newCost) / temp)`
  for a neighbour that is worse.

The search is given a sequence of passes, one per temperature above the
minimum. Each pass is a sequence of `max_iter` moves. `Annealing.Step`,
`Annealing.Run` and `Annealing.RunRounds` are the functional model. The methods
`Annealing.AnnealingPass`, `Annealing.CoolingLoop` and
`Annealing.SimulatedAnnealing` follow the solver's loops statement by statement
and are proved equal to that model.

Temperatures are Dafny `real`s. `Schedule.CoolingRounds` is the number of
passes the `while temp > min_temp` loop makes. It is defined for the inputs
that `Schedule.Terminates` accepts:

- `initial_temp <= min_temp`: the loop makes no pass.
- `cooling_rate <= 0` and `min_temp >= 0`: one pass, after which the
  temperature is at most 0.
- `cooling_rate < 1` and `min_temp > 0`: the temperature falls to `min_temp`
  after finitely many passes, by Bernoulli's inequality (`Schedule.Bernoulli`).

This condition is sufficient for the loop to stop, not necessary. The stopping
inputs it leaves out are listed under "Left out". Within it every pass runs at
a temperature above 0, so the Metropolis test divides by a positive number.

A neighbour that costs exactly as much as the current solution is always
accepted by the source. The exponent is then 0, `exp(0) = 1`, and
`random.random()` is always below 1. `Annealing.MetropolisPasses` states this,
so only a strictly worse neighbour depends on the accept draw.

Three details of the code shape the model:

- The matrix is indexed `c[agent][task]` (line 13). Task `t` given to agent
  `solution[t]` costs `c[solution[t]][t]`. The comment on the example matrix
  (line 56) also puts agents in rows.
- The temperature is multiplied by `cooling_rate` once per pass of `max_iter`
  tries (line 43), not once per try.
- A neighbour of equal cost is always accepted (line 37), as explained above.

## Model

| member | source | states |
|---|---|---|
| `Permutations.Range` | complete_Assignment.py:6 | `list(range(n))`: length `n`, value `i` at position `i` |
| `Permutations.Swap` | complete_Assignment.py:21 | the tuple assignment exchanges the two values, leaves every other position alone and keeps the multiset of values |
| `Permutations.SwapInvolution` | complete_Assignment.py:21 | exchanging the same two positions twice restores the list |
| `Permutations.SwapPreservesPermutation` | complete_Assignment.py:21 | a list after the exchange is a permutation of 0..n-1 exactly when it was one before |
| `Permutations.SwapPreservesDistinct` | complete_Assignment.py:21 | the exchange keeps the values pairwise distinct |
| `Permutations.PermutationIff` | complete_Assignment.py:5-7 | "each task is assigned to one and only one agent": a permutation of 0..n-1 is exactly a length-`n` list of distinct values below `n` (both directions) |
| `Permutations.DistinctBoundedLength` | complete_Assignment.py:5-7 | pigeonhole: at most `m` distinct agents exist below `m` |
| `Costs.CalculateCost` | complete_Assignment.py:10-14 | the accumulation over `enumerate(solution)` returns the sum over tasks `t` of `c[solution[t]][t]`, given that every entry it reads exists |
| `Costs.PermutationCostDefined` | complete_Assignment.py:13 | on an `n`-by-`n` matrix every entry the cost of a permutation reads exists |
| `Costs.SquareForIff` | complete_Assignment.py:13 | the matrix has `n` rows of at least `n` entries exactly when every permutation's cost is defined (both directions) |
| `Costs.CostUpdate` | complete_Assignment.py:12-13 | reassigning task `i` to agent `v` changes the cost by `c[v][i] - c[old][i]` and nothing else |
| `Costs.SwapCost` | complete_Assignment.py:10-22 | the cost of a neighbour is the current cost minus the two old entries plus the two new ones |
| `Costs.ExampleCosts` | complete_Assignment.py:57-61 | on the example matrix `[1, 2, 0]` costs 13, the identity 15, and no permutation costs less than 13 |
| `Generator.ShuffleDown` | complete_Assignment.py:7 | the Fisher–Yates walk from position `top` down keeps the length and the multiset of values and leaves every position above `top` alone |
| `Generator.GenerateInitialSolution` | complete_Assignment.py:4-8 | the shuffled `list(range(n))` is a permutation of 0..n-1, for every choice of draws |
| `Generator.ShuffleDownReaches` | complete_Assignment.py:7 | the walk from position `top` down can arrange the first `top + 1` values in any order, and it constructs the draws that do so |
| `Generator.ShuffleDownInjective` | complete_Assignment.py:7 | on distinct values, equal outcomes of the walk come from equal draws |
| `Generator.EveryPermutationReachable` | complete_Assignment.py:4-8 | every permutation of 0..n-1 is some shuffle's outcome |
| `Generator.GenerateInjective` | complete_Assignment.py:4-8 | distinct draws give distinct permutations, so uniform draws give a uniformly distributed initial solution |
| `Neighbour.PickExistsIff` | complete_Assignment.py:19 | `random.sample(range(n), 2)` has a result exactly when `n >= 2` |
| `Neighbour.SwapTasks` | complete_Assignment.py:16-22 | the neighbour has the two picked positions exchanged and the others unchanged; it is a permutation exactly when the input is one; it differs from an input with distinct values; and a valid pick needs `n >= 2` |
| `Neighbour.SwapTasksSymmetric` | complete_Assignment.py:19-21 | the order of the two sampled positions does not matter |
| `Neighbour.SwapTasksInvolution` | complete_Assignment.py:18-21 | the neighbour of the neighbour under the same pick is the original, so the neighbour relation is symmetric |
| `Neighbour.SwapTasksChangesTwo` | complete_Assignment.py:18-21 | a permutation and its neighbour differ at exactly the two picked positions |
| `Schedule.TempAfter` | complete_Assignment.py:27-43 | the temperature after `k` passes of `temp *= cooling_rate`: from a non-negative start at a non-negative rate it stays non-negative, and at a rate of at most 1 it never rises above `initial_temp` |
| `Schedule.Bernoulli` | complete_Assignment.py:43 | after `k` coolings `temp * (1 + k (1 - rate)) <= initial_temp` |
| `Schedule.RoundBound` | complete_Assignment.py:32-43 | after an explicitly computed number of passes the temperature is at most `min_temp`, so the outer loop ends |
| `Schedule.CoolingRounds` | complete_Assignment.py:27-43 | the number of passes: the temperature is above `min_temp` before each pass and at most `min_temp` after the last |
| `Schedule.CoolingRoundsUnique` | complete_Assignment.py:32-43 | the pass count is the only count `k` whose temperature is the first at or below `min_temp` |
| `Schedule.PassesArePositive` | complete_Assignment.py:32-43 | on a stopping schedule every pass runs at a temperature above 0, so the division by `temp` at line 37 is by a positive number |
| `Schedule.NoRoundsIff` | complete_Assignment.py:27-32 | no pass is made exactly when `initial_temp <= min_temp` |
| `Annealing.Seed` | complete_Assignment.py:25-30 | the starting state: the solution `generateInitialSolution` returns and its cost are both current and best, and the state is consistent |
| `Annealing.MetropolisPasses` | complete_Assignment.py:37 | the `random.random() < math.exp(...)` half of the test: a neighbour of equal cost always passes, because the exponent is 0; a worse one passes exactly when the accept draw holds |
| `Annealing.Step` | complete_Assignment.py:34-41 | one try keeps the state consistent; a neighbour at least as good is always taken; a worse one is taken exactly when the accept draw holds, otherwise nothing changes; the new best cost is the smaller of the old best and the new current cost; the best solution becomes the current one exactly when its cost is strictly below the old best cost, and stays as it was otherwise |
| `Annealing.Run` | complete_Assignment.py:33-41 | any number of tries keeps both solutions permutations with their stored costs, best at most current, and never raises the best cost |
| `Annealing.RunRounds` | complete_Assignment.py:32-43 | the same across passes |
| `Annealing.RunAppend` | complete_Assignment.py:33-41 | running tries `a` and then `b` is running `a + b` |
| `Annealing.RunRoundsFlat` | complete_Assignment.py:32-43 | the pass boundaries do not affect the state: passes run one after another equal all their tries run in one go |
| `Annealing.EmptyRoundsKeepState` | complete_Assignment.py:33 | with `max_iter == 0` every pass leaves the state unchanged |
| `Annealing.BestNeverIncreases` | complete_Assignment.py:40-41 | the best cost after `j` tries is at most the best cost after `i <= j` tries |
| `Annealing.BestBelowEveryVisited` | complete_Assignment.py:40-41 | the final best cost is at most the cost of every solution the search was at |
| `Annealing.BestWasVisited` | complete_Assignment.py:29-41 | the final best is the starting best or a solution the search was at, with that solution's cost |
| `Annealing.HillClimbing` | complete_Assignment.py:37-41 | when no worse neighbour is accepted, the current cost never rises and the best cost equals it |
| `Annealing.SinglePass` | complete_Assignment.py:32-43 | a single pass with a single try is one step |
| `Annealing.SearchOutcome` | complete_Assignment.py:24-45 | the returned solution is a permutation, its returned cost is its cost, and that cost is at most the seed's |
| `Annealing.AnnealingPass` | complete_Assignment.py:33-41 | the `for _ in range(max_iter)` loop computes the functional run of its tries |
| `Annealing.CoolingLoop` | complete_Assignment.py:27-43 | the `while temp > min_temp` loop makes exactly the scheduled passes and computes their run |
| `Annealing.SimulatedAnnealing` | complete_Assignment.py:24-45 | the result is the model's best; it is a permutation with its own cost, no worse than the generated seed; with `initial_temp <= min_temp` or `max_iter == 0` it is the seed itself |
| `Annealing.ExampleNeverBelowOptimum` | complete_Assignment.py:57-66 | on the example matrix no search returns a cost below the optimum 13 |
| `Annealing.ExampleRounds` | complete_Assignment.py:32-43 | the schedule 2, 0.5, 1 makes exactly one pass |
| `Annealing.ExampleShuffle` | complete_Assignment.py:6-7 | the draws `[1, 2]` leave three tasks in identity order |
| `Annealing.ExampleSearch` | complete_Assignment.py:24-45 | from the identity seed, one try exchanging tasks 0 and 2 on the example matrix returns `[2, 1, 0]` with cost 13 |

## Left out

- Floating point. Temperatures are exact reals and `math.exp` is not
  computed. The Metropolis outcome for a worse neighbour is the input
  `Move.accept`.
- Schedule.CoolingRounds: counts passes with exact real multiplication. The
  float product `temp *= cooling_rate` can round across `min_temp` and make one
  pass more or fewer when a temperature lies within rounding of the threshold.
- The random stream. Python draws `random.random()` only when the neighbour is
  not better, because `or` short-circuits. The model gives every try an accept
  bit and ignores it in that case. The distributions of `random.sample` and of
  `randbelow` inside `random.shuffle` are not modelled. Only the values they
  can return are modelled.
- Schedule.Terminates: is sufficient for the outer loop to stop, not
  necessary. Every stopping input it leaves out has `min_temp < 0`, and the
  model says nothing about those runs. Some pass only through positive
  temperatures: `1, -5, -2` (written `initial_temp, cooling_rate, min_temp`)
  makes one pass at 1. Others reach a temperature
  of 0 or below: `-1, 2, -2` makes one pass at -1. At a negative temperature
  the exponent for a worse neighbour is positive. Such a neighbour is then
  always accepted, unless `math.exp` raises `OverflowError`. At temperature 0
  a neighbour that is not strictly cheaper raises `ZeroDivisionError`.
- Inputs that never stop. The temperature stays above `min_temp` forever when
  `initial_temp > min_temp >= 0` and `cooling_rate >= 1`, and when
  `min_temp < 0 < initial_temp` and `0 < cooling_rate < 1`, and in
  alternating runs such as `1, -1, -2`. With `min_temp = 0` and
  `0 < cooling_rate < 1`, exact reals never reach 0, and only float
  underflow ends the loop.
- Annealing.SimulatedAnnealing: requires an `n`-by-`n` matrix (`SquareFor`).
  The source reads only the entries of the solutions it visits. It raises
  `IndexError` only when one of those is missing, so a ragged matrix whose
  missing entries are never read still finishes. The model does not cover
  such a run.
- Annealing.SimulatedAnnealing: takes `maxIter` as a `nat`. In the source a
  negative `max_iter` makes `range(max_iter)` empty, so no pass makes a try.
  That is the run the model gives for `maxIter == 0`.
- Annealing.SimulatedAnnealing: takes `n` as a `nat`. A negative `n` gives
  `list(range(n)) == []`, the same solution as `n == 0`.
- `random.sample(range(n), 2)` raises `ValueError` when `n < 2`. The model has
  no valid `Pick` then (`Neighbour.PickExistsIff`), so a search with `n < 2`
  can only be stated when no try is made.
- The costs are integers. The source accepts any numbers, but only integer
  matrices appear in it.
- The driver script (lines 47-69) is not modelled: its parameters, the call
  and the printing. Only its example matrix is used, in the example lemmas.
- incremental_Assignment.py and tempCodeRunnerFile.py are other versions of the
  script and are not part of this model.
- `best_solution = current_solution` shares one list object in Python. This is
  harmless because `swapTasks` copies before it writes, so the model uses
  values.
