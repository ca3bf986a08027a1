# Cheese-block planner (kase) in Dafny

The kase web app plans cheese orders for a pizzeria. Each cheese variety
comes in blocks of a fixed weight (kg). Each pizza of that variety needs a
given amount of cheese (g). The planning core in `app.py` has four functions,
and this project models each one in its own module:

- **ErrorModel** (`berechne_fehler`) scores a candidate allocation of blocks.
  The score is the sum of squared differences between each variety's share
  of the total cheese mass and its ideal share. The ideal share is the
  variety's pizza weight divided by the sum of all pizza weights. A candidate
  with zero total mass scores infinity.
- **Optimizer** (`berechne_optimal_bloecke`) scores every allocation in
  `[1..maxb]^n` in row-major order. It keeps the first allocation with the
  smallest score. The `np.ndindex` enumeration is modelled as an odometer,
  a mixed-radix counter whose last digit moves fastest.
- **YieldCalculator** (`berechne_pizzen`) turns an allocation into pizzas per
  variety: `floor(count * blockWeight * 1000 / pizzaWeight)`.
- **GroupPartitioner** (`aufteilen_in_gruppen`) applies when the blocks add up
  to more than `maxTotal`. It spreads each variety's blocks as evenly as
  possible over `ceil(total / maxTotal)` groups.

Each loop of the source is a Dafny method with loop invariants:

- the error accumulation;
- the running minimum over the enumeration;
- the yield append loop;
- the nested group loops.

Each method is proved to compute a pure specification function, and the
source's promises are proved about those functions as lemmas. Weights are
exact `real`s and counts are unbounded `int`s. The floating-point infinity
is the `Inf` case of a `Score` datatype.

Two edge cases of the search are modelled as the code behaves:

- **`maxb = 0` with at least one variety.** The enumeration is empty, and
  the all-ones start value is returned although it lies outside
  `[1..maxb]^n`. `Optimizer.OptimalBlocks` states this as a postcondition.
- **No varieties.** `np.ndindex()` yields one empty tuple, whose mass is
  zero and whose score is infinite, and `[]` is returned.

## Model

| member | source | states |
|---|---|---|
| ErrorModel.Less | app.py:39 | Python's `<` on scores: an infinite score is less than nothing, so `inf < inf` is false, and every finite score is less than infinity. |
| ErrorModel.LessStrictOrder | app.py:39 | That `<` is irreflexive, transitive and total, so a strict replacement rule keeps the first of equally good candidates. |
| ErrorModel.Mass | app.py:8 | The total cheese mass `sum(counts * weights)` is never negative for non-negative counts and weights. |
| ErrorModel.MassPositive | app.py:8-11 | With at least one variety, every count at least one and every block weight positive, the mass is positive, so no allocation the search scores is infinite. |
| ErrorModel.SumPositive | app.py:17 | A non-empty sum of positive pizza weights is positive, so the ideal shares are defined. |
| ErrorModel.Error | app.py:8-20 | The score is infinite exactly when the total mass is zero. Otherwise it is finite and never negative. |
| ErrorModel.SquaredDeviation | app.py:13-18 | The accumulated sum of squared share deviations over any prefix of the varieties is never negative. |
| ErrorModel.ComputeError | app.py:7-20 | The accumulation loop returns exactly the score `Error` of the candidate, including `Inf` for zero mass. |
| ErrorModel.SquaredDeviationZero | app.py:15-18 | The deviation over the first `k` varieties is zero if and only if each of them has exactly its ideal share. |
| ErrorModel.ErrorZeroIffIdeal | app.py:8-20 | A candidate with non-zero mass scores exactly zero if and only if every variety's mass share equals its ideal share. |
| Optimizer.Fill | app.py:25 | `n` copies of a value: `np.ones(n)` for the value one, the all-ones start allocation. |
| Optimizer.Plus1 | app.py:33 | `np.array(counts) + 1`: the same length, every entry one larger. |
| Optimizer.PositiveWeightsScorable | app.py:8-17 | With positive block and pizza weights and a pizza weight for every variety, every allocation of the box can be scored without a division by zero. |
| Optimizer.Advance | app.py:32 | One `np.ndindex` step. It wraps exactly when the tuple is the last one (all digits `maxb - 1`). Otherwise the next tuple has the same length, holds only digits, and comes one position later in row-major order. |
| Optimizer.ValueLastIff | app.py:32 | A digit tuple sits at the last row-major position `maxb^n - 1` if and only if every digit is `maxb - 1`. |
| Optimizer.ValueRange | app.py:32 | The row-major position of a digit tuple lies in `[0, maxb^n)`. |
| Optimizer.ValueInjective | app.py:32 | Distinct digit tuples of the same length have distinct row-major positions. |
| Optimizer.CarryValue | app.py:32 | Zeroing the trailing maximal digits and incrementing the digit before them moves one position forward in row-major order. |
| Optimizer.RankRange | app.py:32-33 | Each allocation in the box is scored at a position in `[0, maxb^n)`. |
| Optimizer.RankInjective | app.py:32-33 | No two allocations in the box are scored at the same position, so each is scored exactly once. |
| Optimizer.OnesRankZero | app.py:25-33 | The all-ones start allocation is the first one enumerated. |
| Optimizer.OptimalBlocks | app.py:23-43 | The result has one count per variety. With `maxb >= 1` or no varieties, it lies in `[1..maxb]^n`, scores no worse than every allocation there, and every allocation enumerated before it scores strictly worse. With `maxb = 0` and at least one variety, it is the all-ones start value. |
| Optimizer.FirstMinimiserUnique | app.py:39-41 | At most one allocation is the first minimiser, so the strict-`<` replacement rule fixes the result. |
| Optimizer.TieGoesToFirst | app.py:39-41 | With two equal varieties and `maxb = 2`, every allocation can be scored and `[2, 2]` scores exactly as `[1, 1]` does. Of the two, `[1, 1]` is the first minimiser and `[2, 2]` is not. |
| Optimizer.EqualCountsScoreZero | app.py:8-20 | With two equal varieties, equal counts 1 or 2 give exactly the ideal shares and score zero. |
| YieldCalculator.UnitYield | app.py:50-53 | `int(count * blockWeight * 1000 // pizzaWeight)`; for a positive pizza weight, cheese of non-negative mass never yields a negative number of pizzas. |
| YieldCalculator.ComputeYield | app.py:46-54 | The output has one entry per count. Entry `i` is `floor(counts[i] * blockWeights[i] * 1000 / pizzaWeights[i])`. |
| YieldCalculator.YieldIsLargestFit | app.py:50-52 | For a positive pizza weight, the yield is the largest number of pizzas the cheese covers: that many fit, one more does not. |
| YieldCalculator.YieldUnique | app.py:50-52 | No other whole number of pizzas has that property, so the floor division is characterised independently of its formula. |
| YieldCalculator.YieldMonotone | app.py:50-52 | For a non-negative block weight and a positive pizza weight, more blocks never give fewer pizzas. |
| YieldCalculator.TwoKilosMakeTenPizzas | app.py:50-52 | Two 1 kg blocks at 200 g per pizza make ten pizzas. This pins the kg-to-g factor 1000. |
| GroupPartitioner.Split | app.py:60-82 | There is no split exactly when `maxTotal <= 0` or the total is at most `maxTotal`. Otherwise there are `k >= 2` groups with `(k - 1) * maxTotal < total <= k * maxTotal`. Each group has one entry per variety, and entry `i` of group `g` is `counts[i] / k`, plus one when `g < counts[i] % k`. |
| GroupPartitioner.SplitIntoGroups | app.py:59-82 | The nested append loops return exactly `Split`: `None` in the no-split case, and otherwise the groups in order. |
| GroupPartitioner.GroupCount | app.py:66 | The integer `ceil(total / maxTotal)` satisfies `(k - 1) * maxTotal < total <= k * maxTotal`, and `k >= 2` once the total exceeds the limit. |
| GroupPartitioner.Portion | app.py:73-79 | A variety with `c` blocks gives group `g` of `k` its base share `c / k`, or one block more. |
| GroupPartitioner.GroupCountUnique | app.py:66 | Any `j` with `(j - 1) * maxTotal < total <= j * maxTotal` equals that group count. |
| GroupPartitioner.ColumnPrefix | app.py:73-79 | The first `j` groups together hold `j * (c / k) + min(j, c % k)` blocks of a variety with `c` blocks. |
| GroupPartitioner.SplitConserves | app.py:70-80 | For every variety, the blocks over all groups add up to its count: no block is lost or invented. |
| GroupPartitioner.PortionOrder | app.py:73-79 | A later group never receives more of a variety than an earlier one, and at most one block less. |
| GroupPartitioner.SplitBalanced | app.py:73-79 | Across the groups of a split, a variety's portions never increase and any two differ by at most one block. |
| GroupPartitioner.FiveAndFiveInThreeGroups | app.py:59-82 | `[5, 5]` with limit 4 is split into `[[2, 2], [2, 2], [1, 1]]`. |
| GroupPartitioner.FirstGroupOverLimit | app.py:59-82 | `[1, 1, 1]` with limit 2 is split into `[[1, 1, 1], [0, 0, 0]]`. The first group holds three blocks, more than the limit, so the split does not bound group totals. |

## Left out

- The Flask app and its routes (app.py:1-4, 84-138) are web I/O and are not modelled. This covers form parsing (including replacing commas with dots), template rendering, and the per-group yield loop in the route.
- The display label `name + "(" + weight + "kg)"` (app.py:102) is cosmetic and is not modelled.
- IEEE-754 floats are not modelled. Weights are exact reals, so the model does not reproduce ties or orderings that only float rounding causes. This also covers `float('inf')` arithmetic, float `//`, and `math.ceil` of a float quotient; the group count is the exact integer ceiling.
- numpy internals are not modelled. `np.array` products are elementwise products of equal-length sequences, `np.ones` is a sequence of ones, and `np.ndindex` is a row-major odometer. Broadcasting of mismatched lengths is not modelled: ErrorModel.Error and ErrorModel.ComputeError require as many block weights as counts.
- The source's exceptions are preconditions, not modelled error results:
  - ErrorModel.Error and ErrorModel.ComputeError require, only when the total mass is non-zero, that `sum(pizzaWeights) != 0` and that there are at least as many pizza weights as counts. Otherwise the source raises ZeroDivisionError or IndexError. With zero mass the source returns `inf` before reading any pizza weight, and so does the model.
  - YieldCalculator.ComputeYield requires non-zero pizza weights and enough weights for every count. With too few weights the source raises IndexError. With a zero pizza weight it also fails: on plain integers `// 0.0` raises ZeroDivisionError, and on numpy counts it yields an infinite or undefined float that `int()` rejects with OverflowError or ValueError.
  - Optimizer.OptimalBlocks requires that every allocation in the box can be scored.
- Optimizer.OptimalBlocks: `maxb` is a natural number. With at least one variety, a negative `maxb` makes `np.ndindex` raise. With no varieties, `np.ndindex()` ignores `maxb` and the source returns `[]` for any `maxb`, but the model covers that case only for `maxb >= 0`.
- YieldCalculator.YieldIsLargestFit, YieldCalculator.YieldUnique and YieldCalculator.YieldMonotone assume a positive pizza weight. ComputeYield itself also accepts negative weights, as the source does.
