# Signalling policies by value iteration and likelihood shaping, and a two-cause posterior

This project models two Python files:

- **GetLikelihoodReward.py** plans in a small grid world whose transition and
  reward tables are nested dictionaries. It holds four pieces:
  - `ValueIteration` computes a value table by repeated in-place sweeps.
  - `Qfunction` evaluates every action of every state once.
  - `PolicyGivenGoal` turns those action values into a softmax policy per goal.
  - `GetLikelihoodReward` adds to every reward a bonus. The bonus measures how
    strongly the move reveals the true goal among the goals `'A'`, `'B'` and `'C'`.
- **BayesianInference.py** (`getPosterior`) performs one Bayesian update over
  two independent discrete causes.

## How the model is organised

- **Dictionaries.** Python dictionaries keep insertion order, and the source's
  results depend on that order in three places:
  - the tie list of value iteration;
  - the last write wins when probabilities are tabulated;
  - the order in which a sweep visits the states.

  So every table is an `OrderedDict.ODict`: a sequence of distinct keys and the
  values stored under them. `Put` is `d[k] = v`.
- **Numbers** are exact `real`s.
  - `round(x, 3)` is `Mdp.Round3`, round-half-even to the nearest thousandth.
  - `np.exp` is a parameter `exp` that the caller promises is strictly positive.
    Two lemmas about order also ask that it be increasing.
- **`Mdp`** holds the tables and the Bellman backup
  `Σ_snew P·(r + γ·V[snew])`, accumulated in the row's order.
- **`Sweeps`** specifies value iteration as functions:
  - the rounded tie scan over one state's actions;
  - the uniform greedy row;
  - one Gauss-Seidel sweep: states are visited in table order, and each new
    value is written before the next state is backed up;
  - the largest change of a sweep;
  - the outer loop, bounded by fuel.
- **`ValueIterationEngine.ValueIteration`** is the class.
  - It has the tables and parameters as constants and the value table as a
    field updated in place.
  - Its methods run the loops of `__call__`.
  - Each method is proved equal to the `Sweeps` function for the same step.
- **`QFunction`** models `Qfunction` and `PolicyGivenGoal`.
- **`RewardShaping`** models `GetLikelihoodReward.__call__`. The object's
  `goalPolicies` becomes the parameter `goals`; the stored `transitionTable` is
  never read and is not modelled.
- **`BayesianInference`** models `getPosterior`.
- **`PosteriorExample`** works through the first example of
  `BayesianInference.py` exactly.

## Behaviour in the corner cases

- **First sweep converges.** When the very first sweep already converges,
  `__call__` reaches `return` with `policyTable` unbound. The model's outcome
  for this case is the status `PolicyUnbound`.
- **Converged policy.** Otherwise the policy returned with the converged values
  is the one built during the sweep *before* the last.
- **Policy dictionary of a sweep.** The source creates `policyTableTemp` once,
  before `while True`, with every state as a key (line 75), and rebuilds each
  state's row as the sweep reaches it (line 86). The model starts every sweep
  from an empty policy and adds each state's row as it is visited, so
  mid-sweep its policy lists only the states visited so far
  (`SweepPolicyKeys`). After every full sweep the two agree: same keys in the
  same order, every row rebuilt.
- **Zero maximum.** A state whose best backup is exactly 0 gets an empty policy
  row.
- **Sweep order.** The textbook reading of value iteration is a synchronous
  (Jacobi) sweep that backs every state up from the previous table. The code
  does not do that:
  - it updates the value table in place, so later states read the new values
    of earlier ones (Gauss-Seidel);
  - it validates none of the tolerance, `gamma` or `beta`.

  The model follows the code.
- **Posterior example.** Figures of `A ≈ {a0: 0.8727, a1: 0.1273}` and
  `B ≈ {b0: 0.7418, b1: 0.2582}` are sometimes quoted for the example at
  `BayesianInference.py:41-44`. They do not follow from the code, which computes exactly
  `A = {a0: 6/7, a1: 1/7}` and `B = {b0: 7/13, b1: 6/13}`, and
  `PosteriorExample.ExampleOne` proves those values.

## Model

| member | source | states |
|---|---|---|
| OrderedDict.Put | GetLikelihoodReward.py:40 | `d[k] = v`: afterwards `k` holds `v`; a key already present keeps its place, a new key is appended with its value |
| OrderedDict.PutOther | GetLikelihoodReward.py:40 | writing one key leaves the value of every other key unchanged |
| OrderedDict.FromKeys | GetLikelihoodReward.py:69 | `dict.fromkeys(ks, v)` lists exactly `ks`, in order, each holding `v` |
| OrderedDict.FillAll | GetLikelihoodReward.py:126-137 | writing each of distinct keys once, in order, into an empty dictionary yields exactly those keys with the values written |
| Mdp.Round3 | GetLikelihoodReward.py:98 | `round(x, 3)` lies within half a thousandth of `x` |
| Sweeps.SelectMembers | GetLikelihoodReward.py:98-102 | an action is in the tie list for a rounded maximum exactly when its rounded backup equals that maximum |
| Sweeps.SelectNone | GetLikelihoodReward.py:98-102 | when no action's rounded backup equals the maximum, the tie list is empty |
| Sweeps.SelectDistinct | GetLikelihoodReward.py:100-102 | the tie list repeats no action |
| Sweeps.TieScanBound | GetLikelihoodReward.py:82-102 | the rounded `maxVal` is at least the rounded sentinel -1000, and no action's rounded backup exceeds it |
| Sweeps.TieScanTies | GetLikelihoodReward.py:82-102 | `maxActionIdx` is exactly the actions, in iteration order, whose rounded backup equals the rounded `maxVal` |
| Sweeps.TieScanFirst | GetLikelihoodReward.py:83-100 | when some action beats the sentinel, `maxVal` is the backup of the first action whose rounded backup reaches the rounded maximum, and every earlier one is strictly below it |
| Sweeps.TieScanNone | GetLikelihoodReward.py:83-100 | `maxVal` stays at the sentinel -1000 when no rounded backup beats it, and leaves it only when one does |
| Sweeps.BestAtTiesDistinct | GetLikelihoodReward.py:82-102 | the tied actions of a state are distinct, so each gets one policy entry |
| Sweeps.GreedyRowSpec | GetLikelihoodReward.py:110-113 | a state whose `maxVal` is 0 gets an empty row; otherwise its row lists the tied actions, each with probability `1/n`, summing to 1 |
| Sweeps.SweepValues | GetLikelihoodReward.py:79-108 | a sweep keeps the value table's keys and their order |
| Sweeps.SweepIsGaussSeidel | GetLikelihoodReward.py:79-108 | when the `k`-th state is visited, the states before it already hold their final values of this sweep and the states after it their old values; its new value is the best backup against that mixed table, and its policy row is the greedy row of that backup |
| Sweeps.SweepPolicyKeys | GetLikelihoodReward.py:86 | after `n` visits the policy lists the first `n` states, in visit order |
| Sweeps.SweepPolicyUniform | GetLikelihoodReward.py:110-113 | every state's row after a sweep gives each listed action `1/n`, and a non-empty row sums to 1 |
| Sweeps.SweepChangeIsMax | GetLikelihoodReward.py:115 | `delta` is non-negative, bounds the absolute change of every state in the sweep, and equals one of them unless it is 0 |
| Sweeps.RunFrom | GetLikelihoodReward.py:77-123 | from the `j0`-th sweep on, the loop either exhausts its fuel with every delta at or above the tolerance, or stops at the first sweep below it with that sweep's values and the policy of the sweep before |
| Sweeps.RunOutcome | GetLikelihoodReward.py:77-123 | `__call__` from the starting table: it fails with an unbound policy exactly when the first sweep converges; it runs out of fuel exactly when every sweep stays at or above the tolerance; otherwise it returns the values of the first converged sweep and the policy of the sweep before it |
| ValueIterationEngine.GreedyPolicyRow | GetLikelihoodReward.py:110-113 | the loop that fills a state's policy row builds the greedy row |
| ValueIterationEngine.ValueIteration.constructor | GetLikelihoodReward.py:66-71 | the tables and parameters are stored, and every state of the transition table starts with value 0 |
| ValueIterationEngine.ValueIteration.ComputeBackup | GetLikelihoodReward.py:89-93 | the accumulation over the successors computes the Bellman backup of `(s, a)` under the current value table |
| ValueIterationEngine.ValueIteration.BestActions | GetLikelihoodReward.py:82-102 | the scan over a state's actions yields the tie scan's `maxVal` and tie list |
| ValueIterationEngine.ValueIteration.Visit | GetLikelihoodReward.py:80-115 | visiting the `i`-th state advances the value table, policy and running `delta` from their state after `i` visits to their state after `i + 1` |
| ValueIterationEngine.ValueIteration.SweepOnce | GetLikelihoodReward.py:79-115 | one pass of the `for` loop leaves the value table, policy and `delta` of one Gauss-Seidel sweep from the old table |
| ValueIterationEngine.ValueIteration.Turn | GetLikelihoodReward.py:77-121 | one turn of `while True`: the value table becomes that of one sweep from the old table, the returned policy is that sweep's policy, and `stop` holds exactly when the sweep's `delta` is below the tolerance; then the run ends as the loop specification's does, and otherwise the rest of the run is the specification's run from the new table and snapshot |
| ValueIterationEngine.ValueIteration.Run | GetLikelihoodReward.py:73-123 | `__call__` with at most `fuel` sweeps returns the values and status of the loop specification, and the object keeps the final values |
| QFunction.QTableSpec | GetLikelihoodReward.py:125-141 | the Q-table lists the value table's states; each row lists the actions of `transitionTable[s]`, each holding `Σ P·(R + γ·V[snew])` |
| QFunction.LookupIsBackups | GetLikelihoodReward.py:151-152 | reading `QTable[s][action]` for the actions of a state gives their backups |
| QFunction.WeightsPositive | GetLikelihoodReward.py:153 | with `exp` positive every weight is positive |
| QFunction.WeightsOrder | GetLikelihoodReward.py:153 | with `exp` increasing and `β > 0`, a smaller Q-value has a smaller weight |
| QFunction.NormalizeSpec | GetLikelihoodReward.py:155-156 | scaling positive weights by `1/Σ` gives each its share `w/Σ`, positive, and the shares sum to 1 |
| QFunction.NormalizeMonotone | GetLikelihoodReward.py:155-156 | normalising keeps the strict order of the weights |
| QFunction.PolicyGivenGoalSpec | GetLikelihoodReward.py:143-157 | each row lists the actions of `originalReward[s]`, its weights have a positive sum, and its probabilities are the normalised `exp(β·Q)` |
| QFunction.PolicyGivenGoalDistribution | GetLikelihoodReward.py:143-157 | every action gets `exp(β·Q)/Σ exp(β·Q)`, which is positive, and each state's probabilities sum to 1 |
| QFunction.PolicyGivenGoalMonotone | GetLikelihoodReward.py:143-157 | with `exp` increasing and `β > 0`, an action with a strictly smaller backup gets a strictly smaller probability |
| RewardShaping.PutEachSpec | GetLikelihoodReward.py:38-40 | writing one value under each of a list of keys: the keys present afterwards are the old ones plus the list, the listed keys hold the value, and the others keep theirs |
| RewardShaping.LastReaching | GetLikelihoodReward.py:36-40 | the index of the last action whose reward row lists `snew`, or -1 when none does |
| RewardShaping.ProbRowSpec | GetLikelihoodReward.py:36-40 | `snew` appears in a state's tabulated row exactly when some action lists it, and then holds the goal policy's probability of the last such action |
| RewardShaping.ProbIsLastAction | GetLikelihoodReward.py:33-40 | `P(g, s, snew)` is `Policy_g[s][a]` for the last action `a` of `s` whose reward entry lists `snew`, and is present exactly when such an action exists |
| RewardShaping.ProbListed | GetLikelihoodReward.py:54 | every probability that line 54 reads is present in the table |
| RewardShaping.GetLikelihoodRewardSpec | GetLikelihoodReward.py:46-58 | the new reward has exactly the `(s, a, snew)` keys of `originalReward`, the denominator is non-zero, and each entry is `r_orig + α·P(true)/(P(A)+P(B)+P(C))` |
| RewardShaping.GetLikelihoodRewardAlphaZero | GetLikelihoodReward.py:46-58 | with `α = 0` the new reward equals the original one entry for entry |
| RewardShaping.SameBonus | GetLikelihoodReward.py:52-56 | two actions of `s` that both list `snew` receive the same bonus |
| RewardShaping.ProbNonNegative | GetLikelihoodReward.py:40 | a goal policy with non-negative probabilities tabulates non-negative `P(g, s, snew)` |
| RewardShaping.InfoBounds | GetLikelihoodReward.py:54 | with non-negative policies for `'A'`, `'B'`, `'C'`, a true goal among them and a non-zero denominator, the denominator is positive and `0 ≤ r_info ≤ 1` |
| BayesianInference.GetPosterior | BayesianInference.py:14-15 | the marginals list exactly the values of `priorOfA` and `priorOfB`, in their order |
| BayesianInference.GetPosteriorEmpty | BayesianInference.py:14-36 | with both priors empty the likelihood mentions no pair and both marginals are empty, whatever the total weight: the loops never divide |
| BayesianInference.GetPosteriorSpec | BayesianInference.py:20-33 | each joint weight is `likelihood[k]·priorOfA[k[0]]·priorOfB[k[1]]`, and each marginal entry is the weight of the pairs containing its value divided by the total weight |
| BayesianInference.MassPartition | BayesianInference.py:24-33 | when every pair's value is a prior key, the masses of the prior's values add up to the total weight |
| BayesianInference.GetPosteriorSumsToOne | BayesianInference.py:24-33 | each marginal sums to 1 |
| BayesianInference.GetPosteriorBounds | BayesianInference.py:20-33 | with non-negative priors and likelihood, the normaliser is positive and every marginal entry lies in [0, 1] |
| BayesianInference.GetPosteriorUnmentioned | BayesianInference.py:28-33 | a value that no likelihood key mentions gets marginal 0 |
| PosteriorExample.ExampleJoints | BayesianInference.py:41-43 | the joint weights of the first example are 0.0525, 0.045, 0.00875 and 0.0075 |
| PosteriorExample.ExampleOne | BayesianInference.py:41-44 | the first example's marginals are exactly `{a0: 6/7, a1: 1/7}` and `{b0: 7/13, b1: 6/13}` |

## Left out

- Plotting (`visualizeValueTable`, `visualizePolicy`) and console printing (`viewDictionaryStructure`) have no behaviour to verify.
- Both `main` drivers are hard-coded grid literals and print calls. Only the first posterior example is reproduced, as a lemma.
- Floating point is not modelled: numbers are exact reals.
  - `np.exp` is a caller-supplied positive function, so its overflow and precision are not modelled.
  - `round(x, 3)` rounds an exact real half-to-even. The binary-float rounding of Python's `round` is not modelled.
- Termination of `while True` and convergence to the optimal values are not proved. The loop runs for at most `fuel` sweeps, and the status `FuelExhausted` has no counterpart in the source.
- Missing keys (`KeyError` in the source) are preconditions.
  - `Mdp.At` reads 0 for a key that is missing, but the preconditions guarantee it never does so where the source would raise.
  - The reward shaping requires policies for `'A'`, `'B'`, `'C'` and the true goal.
- The unbound `policyTable` after a first sweep that converges is the status `PolicyUnbound`, not an exception.
- `GetLikelihoodReward.transitionTable` is stored but never read, so it is not modelled.
- `Qfunction`'s default `gamma = 0.95` is not modelled: every caller passes `gamma` explicitly.
- RewardShaping.GetLikelihoodReward: requires every denominator `P(A)+P(B)+P(C)` to be non-zero. With numpy floats the source would instead produce `inf` or `nan` entries. Softmax policies are positive, so such a denominator never arises from them.
- BayesianInference.GetPosterior: requires a non-zero total weight unless both priors are empty. Those are exactly the inputs on which the source raises `ZeroDivisionError`: a zero total is divided by at lines 28 or 33 as soon as one prior lists a value. With both priors empty nothing is divided and the source returns `[{}, {}]`, as `GetPosteriorEmpty` states.
- QFunction.PolicyGivenGoal: requires (`SoftmaxDefined`) that every state of `originalReward` lists at least one action. For a state with an empty row the sum at line 155 is 0 and the source raises `ZeroDivisionError`; that failure is not modelled.
- Mdp.StateDefined: requires a reward entry for every action of a state, even one whose transition row lists no successor. The source reads `rewardTable[s][action][snew]` only inside the loop over successors (line 92), so it would not fail there. `ValueIteration.Ready`, `Qfunction` and `PolicyGivenGoal` inherit this extra demand.
- RewardShaping.Covers: requires each goal policy to have a row for every state of `originalReward`, and an entry in it for every action of that state. This holds even for a state with no actions, and for an action whose reward row lists no successor. The source reads `Policy[s][a]` only inside the loop over successors (lines 38-40), so for `originalReward = {s0: {}}` it returns `{s0: {}}` whatever the policies hold, while the model excludes policies without a row for `s0`.
- Mdp.Round3: the contract states only that the result lies within 0.0005 of its argument.
- QFunction.PolicyGivenGoalMonotone: assumes `exp` is increasing, as `np.exp` is on exact reals.
