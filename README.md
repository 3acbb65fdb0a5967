# Exploding dice: a verified model of the probability engine

An *exploding* n-sided die has faces 1..n. Rolling the top face n adds n to
the running total and the die is rolled again, with no limit on the number of
explosions. The engine in `exploding_dice.py` answers three questions:

- **P(total ≥ target).** The answer comes from a memoised recursion. Each
  explosion lowers the target by n. A per-die dictionary stores every value it
  computes. A `max_depth` guard gives up with 0 once it runs out.
- **The expected total.** This is the closed form n(n+1)/(2(n−1)).
- **P(max of two independent dice ≥ target).** This is 1 − (1−p1)(1−p2).

Two batch sweeps fill result tables from these answers.

The project has four modules:

- **`DieMath`** (`die_math.dfy`) holds the mathematics on exact `real`s:
  - `Prob`, the recurrence P(t) = c(t)/n + (1/n)·P(t−n), where c(t) counts the
    faces t..n−1 that reach the target without exploding;
  - an independent closed form, (n−s+1)/n^(k+1) for t = k·n + s with
    1 ≤ s ≤ n, proved equal to the recurrence for every target t ≥ 1;
  - a one-step check of the recurrence by total probability over the first face;
  - monotonicity in the target, and exactly where it is not strict;
  - the expectation equation;
  - the max-of-two formula.

  Module `DieFacts`, in the same file, checks printed figures and printed claims
  against the recurrence.
- **`ExplodingDice`** (`exploding_die.dfy`) holds the engine. Class
  `ExplodingDie` has the face count `n` and a `cache: map<int, real>` field.
  Method `ProbabilityAtLeast`, which `modifies this`, follows the source
  branch for branch.
  - Its contract ties the result and the new cache to a pure function
    `Query(n, cache, target, maxDepth)`.
  - The lemmas about `Query` state what the memo table promises:
    - a hit returns the stored value;
    - entries are never overwritten;
    - new keys lie on the chain target, target−n, … and are at least 2;
    - from a cache of exact values, a deep enough guard gives the exact answer;
    - a truncated answer, once stored, is returned for any depth.
  - The invariant kept throughout is that every cached value lies in
    [0, P(key)]. A truncated value can only under-count.
- **`Sweeps`** (`sweeps.dfy`) holds the two table-filling loops. Each is a
  method with loop invariants.
- **`Arith`** (`arith.dfy`) holds small facts of real and integer arithmetic
  that the model lemmas call with their own terms.

## Model

| member | source | states |
|---|---|---|
| DieMath.Prob | exploding_dice.py:45-79 | P(total ≥ t) from the engine's recurrence is always in (0, 1]; it is never 0, because every total is reachable |
| DieMath.ProbRecurrence | exploding_dice.py:64-76 | for t ≥ 2, P(t) = c(t)/n + (1/n)·P(t−n), where c(t) = max(0, n−t) if t ≤ n and 0 otherwise |
| DieMath.TotalProbability | exploding_dice.py:58-76 | the recurrence equals the law of total probability: summing P(reach t given first face v)·(1/n) over v = 1..n |
| DieMath.SingleRoll | exploding_dice.py:66-71 | for 2 ≤ t ≤ n, P(t) = (n−t+1)/n |
| DieMath.ProbClosedForm | exploding_dice.py:66-76 | for t = k·n + s with 1 ≤ s ≤ n, P(t) = (n−s+1)/n^(k+1) |
| DieMath.Decompose | exploding_dice.py:73-76 | every target t ≥ 1 is k·n + s for some k ≥ 0 and 1 ≤ s ≤ n, and P(t) is the closed form at that k and s |
| DieMath.ExplosionShift | exploding_dice.py:73-76 | after an explosion: P(t+n) = P(t)/n for t ≥ 1 |
| DieMath.ProbMonotone | exploding_dice.py:48-76 | for a fixed die, s ≤ t implies P(t) ≤ P(s) |
| DieMath.PlateauIff | target_value_analysis.py:599 | P(k·n+s+1) = P(k·n+s) if and only if s = n: the decrease is strict except between a multiple of n and the next target |
| DieMath.SumToClosed | exploding_dice.py:89-94 | 2·(1 + … + m) = m(m+1) |
| DieMath.ExpectationEquation | exploding_dice.py:83-95 | for n ≥ 2, E = (1+…+(n−1))/n + (n+E)/n holds if and only if E = n(n+1)/(2(n−1)) |
| DieMath.MaxOfTwo | exploding_dice.py:277-295 | 1 − (1−p1)(1−p2) lies in [0, 1], is at least max(p1, p2), and equals p1 + p2 − p1·p2 (the inclusion–exclusion form at mathematical_analysis.py:40) |
| DieMath.MaxOfTwoSymmetric | exploding_dice.py:293-295 | the combined probability does not depend on the order of the two dice |
| DieMath.MaxOfTwoMonotone | exploding_dice.py:293-295 | raising either single-die probability never lowers the combined one |
| DieFacts.D6Figures | mathematical_analysis.py:499-530 | for a d6, P = 1/2 at T=4, 1/6 at T=6, 5/36 at T=8 and 1/12 at T=10: the printed 50%, 16.7%, 13.9% and 8.3% |
| DieFacts.StrictDecreaseFails | target_value_analysis.py:599 | with a d6, P(7) = P(6), so the probability does not always decrease as the target rises |
| DieFacts.FaceCountNotMonotone | exploding_dice.py:574 | P(d4 ≥ 6) = 3/16 > 1/6 = P(d6 ≥ 6), so a larger die does not always have the higher probability |
| DieMath.LargerDieSingleRoll | exploding_dice.py:66-71 | for targets within one roll of both dice, 2 ≤ t ≤ n1 ≤ n2, P(d_n1 ≥ t) ≤ P(d_n2 ≥ t), strictly when n1 < n2 |
| DieFacts.DerivationAsPrintedUnsolvable | exploding_dice.py:86-87 | the first line of the derivation as printed, E = S/n + n·(1/n)·(1+E), has no solution E for any n ≥ 2 |
| ExplodingDice.Query | exploding_dice.py:34-79 | one call keeps every cached value in [0, P(key)] and returns a value in [0, P(target)]: a truncated answer never over-counts |
| ExplodingDice.QueryShortCircuit | exploding_dice.py:51-56 | for target ≥ 2, a cache hit returns the stored value and leaves the cache unchanged; an uncached target with max_depth ≤ 0 returns 0 and stores nothing |
| ExplodingDice.QueryStep | exploding_dice.py:64-79 | for an uncached target ≥ 2 with max_depth > 0: the result is one step of the recurrence from the result for target−n at max_depth−1; it is stored at target, a key the inner call did not store |
| ExplodingDice.QueryGrows | exploding_dice.py:51-78 | existing entries keep their values; every key a call adds is one of target, target−n, target−2n, … and is at least 2 |
| ExplodingDice.QueryExact | exploding_dice.py:34-79 | from a cache of exact values, a guard with max_depth > (target−2)/n returns exactly P(target) and leaves only exact values |
| ExplodingDice.QueryTruncates | exploding_dice.py:54-56 | on a fresh die, a guard that is not deep enough returns strictly less than P(target) |
| ExplodingDice.FreshExactIff | exploding_dice.py:34-79 | on a fresh die the result equals P(target) if and only if max_depth > (target−2)/n |
| ExplodingDice.QueryRepeat | exploding_dice.py:51-52 | unless the first call gave up before storing, asking again with any depth returns the same value and changes nothing |
| ExplodingDice.TruncatedEntryPersists | exploding_dice.py:51-56 | the cache key ignores max_depth: a d2 asked for 6 with depth 1 stores 0, and a later call with depth 1000 returns that 0, although P = 1/8 |
| ExplodingDice.EngineStep | exploding_dice.py:66-76 | the engine's accumulation, direct_success_count/n plus explosion_prob·rest, is one step of the recurrence |
| ExplodingDice.ExplodingDie.constructor | exploding_dice.py:24-32 | a new die has the given face count and an empty cache |
| ExplodingDice.ExplodingDie.ProbabilityAtLeast | exploding_dice.py:34-79 | the result and new cache are those of Query; the result is in [0, P(target)]; target ≤ 1 gives 1.0 and leaves the cache untouched; old entries are kept; new keys lie on the chain target, target−n, …; with exact entries and a deep enough guard the result is exactly P(target) |
| ExplodingDice.ExplodingDie.ExpectedValue | exploding_dice.py:81-95 | n(n+1)/(2(n−1)) solves the expectation equation E = (1+…+(n−1))/n + (n+E)/n and exceeds the plain mean (n+1)/2 |
| ExplodingDice.ExpectedValueUnique | exploding_dice.py:83-95 | any solution of the expectation equation is the value ExpectedValue returns |
| ExplodingDice.ExpectedValueFigures | exploding_dice.py:575 | expected values d4 = 10/3, d6 = 21/5 and d12 = 78/11, printed as 3.33, 4.20 and 7.09 |
| ExplodingDice.ProbabilityMaxOfTwo | exploding_dice.py:269-295 | the result is MaxOfTwo of the two queries' results, and each die's cache is its query's cache, also when both arguments are the same die; the result lies between 0 and MaxOfTwo of the true probabilities, and equals it when both dice are exact and deep enough |
| Sweeps.CalculateAllProbabilities | exploding_dice.py:98-125 | the table has one row per listed die size and one entry per listed target; each entry lies in [0, P], and equals P when every target is within the depth guard |
| Sweeps.FillRow | exploding_dice.py:118-120 | querying every target in turn on one die gives such a row, and when every target is within the depth guard the die's cache stays exact |
| Sweeps.CalculateTwoDiceProbabilities | exploding_dice.py:298-330 | the table has one row per second die and one entry per target; each entry lies in [0, MaxOfTwo(P_d6, P_dX)], with equality when every target is within the depth guard for both dice, although the d6 and its cache are shared by all rows |
| Sweeps.FillPairRow | exploding_dice.py:322-324 | one row against the shared d6 meets the two-dice row property, and keeps each die's cache exact whenever every target is within that die's depth guard |

## Left out

- Floating point is not modelled. Probabilities are exact `real`s, so IEEE rounding, and any claim that depends on it, does not carry over.
- ExplodingDice.ExplodingDie.constructor: requires n ≥ 2. The source never checks `n`. With n = 1, `expected_value` divides by zero. With n = 0, `probability_at_least` divides by zero for targets above 1. With n < 0, it recurses on a target that grows with every call, until the depth guard returns 0 or Python's recursion limit stops it.
- The `max_terms` parameter of `expected_value` (exploding_dice.py:81) and the `lru_cache` import (exploding_dice.py:12) are left out, because neither is used.
- When the caller gives no depth, the default depth of 1000 is the constant `DefaultMaxDepth`. Python's own recursion limit is not modelled, so a call with a target needing more than about 1000 nested frames is treated as completing.
- Sweeps.CalculateAllProbabilities and Sweeps.CalculateTwoDiceProbabilities: the `print` calls reporting expected values are left out. The sweeps require every die size to be at least 2, because those prints call `expected_value`.
- All plotting and table printing is left out (`visualize_*`, `create_*heatmap`, `print_*_table`, `main`): these only produce output.
- target_value_analysis.py and mathematical_analysis.py are not modelled as code. They are reporting layers built on numpy. Only their printed figures and claims about the engine appear here, as the DieFacts lemmas.

## Findings

| source | as written | input that shows it | evidently intended | confidence | as-written member | corrected member |
|---|---|---|---|---|---|---|
| target_value_analysis.py:599 | "Probability ALWAYS decreases as target increases" | a d6 at targets 6 and 7: both 1/6 | non-increasing, strictly decreasing except from a multiple of n to the next target | not executed | DieFacts.StrictDecreaseFails | DieMath.PlateauIff |
| exploding_dice.py:86-87 | explosion term written n·(1/n)·(1+E) | any n ≥ 2: the equation reduces to 0 = S/n + 1, which has no solution | explosion term (1/n)·(n+E), as lines 88-95 go on to use | not executed | DieFacts.DerivationAsPrintedUnsolvable | DieMath.ExpectationEquation |
| exploding_dice.py:574 | "Larger dice have higher probabilities for reaching targets" | d4 and d6 at target 6: 3/16 against 1/6 | true for targets a single roll of both dice can reach, 2 ≤ t ≤ the smaller face count; beyond that, explosions of the smaller die can win | not executed | DieFacts.FaceCountNotMonotone | DieMath.LargerDieSingleRoll |
