# Conflict-aware 0/1 knapsack solvers

A Dafny model of the three solvers in `OptymalizacjaKombinatoryczna.cpp`.
Each solver takes a capacity `W`, parallel `weights`/`values` lists, and one
list per item of the items it conflicts with. Each returns a total value.

- **Ratio greedy** (`knapsackGreedy`). It sorts the item indices by decreasing
  value per weight. It then makes one pass, taking an item when it fits in the
  capacity left and no item on its conflict list is taken yet.
- **Shuffled greedy** (`knapsackGreedyRandom`). The same pass over shuffled
  indices.
- **Table DP** (`knapsackDynamic`). It fills an `(n+1) x (W+1)` table with the
  0/1 knapsack recurrence. Inclusion is blocked when a conflict index `p` of
  the item has `dp[p][w] > 0`. The model keeps this recurrence exactly as the
  code has it.

Modules:

- `Problem` (`problem.dfy`): the instance, selections as boolean masks and
  their sums, and permutations of the indices.
- `Greedy` (`greedy.dfy`): the comparator, the sort, the shuffle, the pass,
  and both greedy solvers.
- `Dynamic` (`dynamic.dfy`): the table as written, the unconstrained 0/1
  optimum, and what a cell means.
- `Exact` (`exact.dfy`): the conflict-respecting optimum the table was meant
  to compute, plus two instances on which the table misses it.

Modelling choices:

- The in-place state of the source is modelled imperatively:
  - the `indices` array is filled, then sorted or shuffled, in place;
  - `selected` is a `bool` array;
  - `W` is decremented;
  - the table is an `array2<int>` filled cell by cell;
  - the conflict scans stop with `break`.
- The pass and the table are each proved equal to a pure specification
  function: `Greedy.Pass` for the pass (`Greedy.GreedyPass`) and
  `Dynamic.Cell` for the table (`Dynamic.KnapsackDynamic`). The properties
  are proved about those functions. `Greedy.Shuffle` is likewise proved equal
  to `Greedy.Shuffled`.
- The sort (`Greedy.Sort`, `Greedy.SortByRatio`) is not tied to a function.
  Its contract states the two properties `std::sort` promises: the result is
  a rearrangement of the input, and it is in order under the comparator.
- The comparator's `double` quotients become integer cross products.
  `RatioGreaterIsDivision` proves the two equal over the reals.
- The solvers also return the selection and the visiting order, which the
  source keeps internal. Their value result is the one the source returns.
- The engine behind `std::shuffle` is replaced by a `draws` parameter, one
  draw per position. The shuffle is a forward exchange pass: position `i` is
  swapped with position `draws[i] mod (i+1)`. Every property of the pass is
  proved for an arbitrary permutation (`PassGuarantees`), so it holds whatever
  the engine produces.
- `std::sort` is modelled by an insertion sort (`Greedy.Sort`) that takes
  the comparator as a parameter, as `std::sort` does. It guarantees what `std::sort`
  guarantees: the result is a permutation, and no item comes after one with a
  smaller ratio. It also settles ties in one particular way. The greedy
  guarantees do not depend on how ties are settled.
- The spec function `Dynamic.Cell` reads the probed row `p` only when
  `p < i`. At the moment cell `(i, w)` is filled, rows `p >= i` still hold
  their initial zero. So the spec reads the same values as the code.

## Model

| member | source | states |
|---|---|---|
| `Greedy.RatioGreater` | OptymalizacjaKombinatoryczna/OptymalizacjaKombinatoryczna.cpp:35-37 | the comparator `sortByValuePerWeight` on integer cross products; it is irreflexive (no item has a greater ratio than itself), and `RatioGreaterIsDivision` proves it equal to the quotient comparison |
| `Greedy.RatioGreaterIsDivision` | OptymalizacjaKombinatoryczna/OptymalizacjaKombinatoryczna.cpp:35-37 | the comparator holds exactly when item a's value/weight quotient is greater than item b's, computed over the reals |
| `Greedy.RatioTransitive` | OptymalizacjaKombinatoryczna/OptymalizacjaKombinatoryczna.cpp:35-37 | "not a greater ratio" is transitive for positive weights, so sorting by the comparator is well defined |
| `Greedy.Sort` | OptymalizacjaKombinatoryczna/OptymalizacjaKombinatoryczna.cpp:51 | for any asymmetric comparator, as `std::sort` requires, the array ends up a rearrangement of itself in which no entry must come before the entry preceding it |
| `Greedy.SortByRatio` | OptymalizacjaKombinatoryczna/OptymalizacjaKombinatoryczna.cpp:50-51 | the index array ends up a rearrangement of itself in which no index comes after one with a smaller value per weight |
| `Greedy.Indices` | OptymalizacjaKombinatoryczna/OptymalizacjaKombinatoryczna.cpp:44-48 | the index array holds 0..n-1 in order |
| `Greedy.Shuffled` | OptymalizacjaKombinatoryczna/OptymalizacjaKombinatoryczna.cpp:85-87 | the order after the shuffle's exchanges is a rearrangement of the order before |
| `Greedy.Shuffle` | OptymalizacjaKombinatoryczna/OptymalizacjaKombinatoryczna.cpp:85-87 | the array after the in-place exchanges is the order given by `Shuffled` |
| `Greedy.Blocked` | OptymalizacjaKombinatoryczna/OptymalizacjaKombinatoryczna.cpp:55-64 | the test that keeps item i out: a listed conflict is taken or the item weighs more than the capacity left; with no capacity left every item is blocked, and an item with an empty conflict list is blocked exactly when it does not fit |
| `Greedy.Visit` | OptymalizacjaKombinatoryczna/OptymalizacjaKombinatoryczna.cpp:53-69 | one iteration for item i: item i is taken afterwards exactly when it was taken or not blocked; no other item changes; the value grows and the capacity shrinks by exactly item i's value and weight when it is taken, and stay put otherwise; a capacity left that is non-negative stays so |
| `Greedy.Pass` | OptymalizacjaKombinatoryczna/OptymalizacjaKombinatoryczna.cpp:53-69 | the state after the loop over an order of indices, for either solver (also lines 89-105): the capacity left is between 0 and W, the value is non-negative, and no item outside the order is taken |
| `Greedy.GreedyPass` | OptymalizacjaKombinatoryczna/OptymalizacjaKombinatoryczna.cpp:53-69 | the loop, including the conflict scan with its early break, ends in the state `Pass` defines: the selection, the value and the capacity left |
| `Greedy.VisitKeepsInvariant` | OptymalizacjaKombinatoryczna/OptymalizacjaKombinatoryczna.cpp:55-68 | visiting an item not seen before keeps these facts: value = sum of the values taken; capacity left = W minus the weight taken, and never negative; only seen items are taken; no taken item is listed by an item taken after it; every seen item left out is blocked |
| `Greedy.PassKeepsInvariant` | OptymalizacjaKombinatoryczna/OptymalizacjaKombinatoryczna.cpp:53-69 | the invariant above holds after the pass over any order without repeats |
| `Greedy.ConflictGraphConflictFree` | OptymalizacjaKombinatoryczna/OptymalizacjaKombinatoryczna.cpp:55-61 | with symmetric, loop-free conflict lists (as the generator builds them at lines 27-29), each pair of taken items is conflict-free in both directions |
| `Greedy.PassGuarantees` | OptymalizacjaKombinatoryczna/OptymalizacjaKombinatoryczna.cpp:53-69 | for EVERY permutation of the items, the pass's value is the sum of the values taken and the weight taken is at most W; with symmetric lists, the selection is feasible; every item left out lists a taken item or weighs more than the capacity left |
| `Greedy.ZeroCapacity` | OptymalizacjaKombinatoryczna/OptymalizacjaKombinatoryczna.cpp:64 | a selection that fits in capacity 0 is worth 0, because weights are positive |
| `Greedy.KnapsackGreedy` | OptymalizacjaKombinatoryczna/OptymalizacjaKombinatoryczna.cpp:39-72 | the visiting order is a permutation of 0..n-1 in non-increasing value-per-weight order; the result is the pass over it, with all the guarantees above; it is ≥ 0, and 0 when n = 0 or W = 0 |
| `Greedy.KnapsackGreedyRandom` | OptymalizacjaKombinatoryczna/OptymalizacjaKombinatoryczna.cpp:74-108 | the visiting order is the shuffle of 0..n-1, a permutation of it; the result is the pass over it, with all the guarantees above; it is ≥ 0, and 0 when n = 0 or W = 0 |
| `Dynamic.Cell` | OptymalizacjaKombinatoryczna/OptymalizacjaKombinatoryczna.cpp:114-131 | every cell of the recurrence as written, where the probe of line 119 sees rows below i, is non-negative |
| `Dynamic.CellMonotone` | OptymalizacjaKombinatoryczna/OptymalizacjaKombinatoryczna.cpp:125-130 | each cell is at least the cell above it, dp[i][w] ≥ dp[i-1][w] |
| `Dynamic.ProbeFinds` | OptymalizacjaKombinatoryczna/OptymalizacjaKombinatoryczna.cpp:117-123 | the outcome of the conflict scan for cell (i, w): a conflict p < i has a positive cell; it can only hold for w > 0 and when item i-1 lists some item p with 0 < p < i |
| `Dynamic.Includable` | OptymalizacjaKombinatoryczna/OptymalizacjaKombinatoryczna.cpp:125 | the test of line 125 for cell (i, w): it implies that item i-1 fits in w, and for an item with no conflicts it holds exactly when the item fits |
| `Dynamic.Probe` | OptymalizacjaKombinatoryczna/OptymalizacjaKombinatoryczna.cpp:117-123 | the scan with early break finds a conflict exactly when some conflict index p < i has a positive cell in column w |
| `Dynamic.FillRow` | OptymalizacjaKombinatoryczna/OptymalizacjaKombinatoryczna.cpp:115-131 | after row i is filled, rows 0..i hold their `Cell` values and the later rows are still zero |
| `Dynamic.KnapsackDynamic` | OptymalizacjaKombinatoryczna/OptymalizacjaKombinatoryczna.cpp:110-135 | returns `Cell(n, W)`, the last cell of the table; the result is ≥ 0, and 0 when n = 0 or W = 0 |
| `Dynamic.Traceback` | OptymalizacjaKombinatoryczna/OptymalizacjaKombinatoryczna.cpp:125-130 | each cell dp[i][w] is the value of some subset of items 0..i-1 weighing at most w |
| `Dynamic.OptIsUpperBound` | OptymalizacjaKombinatoryczna/OptymalizacjaKombinatoryczna.cpp:125-130 | for the plain 0/1 knapsack recurrence with no conflict test, no subset of items 0..i-1 weighing at most w is worth more than it |
| `Dynamic.OptChoice` | OptymalizacjaKombinatoryczna/OptymalizacjaKombinatoryczna.cpp:125-130 | that recurrence's value is attained by a subset weighing at most w, so it is the unconstrained optimum |
| `Dynamic.CellAtMostOpt` | OptymalizacjaKombinatoryczna/OptymalizacjaKombinatoryczna.cpp:114-131 | no cell exceeds the unconstrained 0/1 knapsack optimum |
| `Dynamic.ForwardConflictsIgnored` | OptymalizacjaKombinatoryczna/OptymalizacjaKombinatoryczna.cpp:118-123 | a conflict with item 0 or with a later item never blocks. So if every conflict points that way, including when all lists are empty, the table equals the unconstrained optimum |
| `Exact.BestIsUpperBound` | OptymalizacjaKombinatoryczna/OptymalizacjaKombinatoryczna.cpp:116 | no feasible selection gains more over any of its prefixes than the exhaustive search `Best` |
| `Exact.BestChoice` | OptymalizacjaKombinatoryczna/OptymalizacjaKombinatoryczna.cpp:116 | some conflict-free completion of a prefix, within the capacity left, gains exactly `Best` |
| `Exact.ExactIsOptimal` | OptymalizacjaKombinatoryczna/OptymalizacjaKombinatoryczna.cpp:116 | `ExactBest` is the best value of a feasible selection (weight ≤ W and no conflicting pair); it is an upper bound and it is attained |
| `Exact.GreedyAtMostExact` | OptymalizacjaKombinatoryczna/OptymalizacjaKombinatoryczna.cpp:53-69 | with symmetric conflict lists, no greedy pass over any permutation is worth more than the optimum |
| `Exact.TableTakesConflictingPair` | OptymalizacjaKombinatoryczna/OptymalizacjaKombinatoryczna.cpp:118-126 | on two mutually conflicting items of weight 1 and value 10, with W = 10, the table gives 20 |
| `Exact.MutualPairBest` | OptymalizacjaKombinatoryczna/OptymalizacjaKombinatoryczna.cpp:116 | on that instance, the best feasible value is 10 |
| `Exact.TableBlocksFeasibleItem` | OptymalizacjaKombinatoryczna/OptymalizacjaKombinatoryczna.cpp:118-130 | on weights [1,1,1], values [1,1,100] and conflicts [[],[2],[1]], with W = 2, the table gives 2 |
| `Exact.ValuableThirdFeasible` | OptymalizacjaKombinatoryczna/OptymalizacjaKombinatoryczna.cpp:116 | on that instance, items 0 and 2 are feasible together and worth 101 |
| `Problem.SumSelect` | OptymalizacjaKombinatoryczna/OptymalizacjaKombinatoryczna.cpp:65-66 | setting `selected[i]` adds exactly `values[i]` to the sum of the values taken (and `weights[i]` to the weight) |
| `Problem.PermutationFacts` | OptymalizacjaKombinatoryczna/OptymalizacjaKombinatoryczna.cpp:45-51 | a rearrangement of 0..n-1 has n entries, all item indices, none repeated, and each index appears |

## Left out

- `generateRandomInstance` is left out: it seeds the generator from
  `time(0)` and uses `rand()`. What the model keeps is its shape: symmetric
  conflict lists without self-conflicts (`Instance.IsConflictGraph`). This is
  a precondition only where symmetry is needed.
- `average` is left out: floating-point arithmetic.
- `randomInstances` is left out: wall-clock timing and console output.
- `jsonInstances` is left out: file input and parsing through an external JSON
  library.
- `main` is left out: an interactive menu loop.
- The `std::default_random_engine` sequence is left out: its draws are a
  parameter. The libstdc++ `std::shuffle` may draw two positions per engine
  call. The model uses one draw per position. Its result is still a
  permutation, and every property is proved for every permutation.
- `Greedy.SortByRatio`: insertion sort, not introsort. The tie order it
  produces is one of those `std::sort` may produce, not necessarily the same
  one.
- The comparator's `double` rounding is not modelled: ratios are compared
  exactly. Two ratios that differ by less than the rounding error may be
  ordered differently by the source.
- 32-bit `int` overflow of values, weights and sums is not modelled: integers
  are unbounded.
- The inputs are assumed well formed (`Instance.Valid`). `generateRandomInstance`
  supplies such inputs. `jsonInstances` passes the file's contents to the
  solvers unchecked, and the model does not cover malformed files. Well
  formed means:
  - the three lists have the same length;
  - weights and values are positive;
  - conflict indices are in range;
  - `W` is non-negative (`nat`).
- A negative `W` is not modelled. With `W = -1` the table has empty rows, and
  `dp[n][W]` reads out of range. With `W <= -2` the row constructor at line
  112 receives a negative count converted to a huge size and throws before
  any cell is read. With any negative `W` the greedy passes return 0.

## Findings

| source | as written | input that shows it | evidently intended | confidence | as-written member | corrected member |
|---|---|---|---|---|---|---|
| OptymalizacjaKombinatoryczna/OptymalizacjaKombinatoryczna.cpp:118-126 | the probe `dp[prevItem][w] > 0` reads the table row numbered like the conflicting item. Row 0 is always zero and later rows are not filled yet, so such conflicts never block | weights [1,1], values [10,10], conflicts [[1],[0]], W = 10: the table returns 20 by taking both conflicting items | per the comment at line 116, an item is not included beside a conflicting selected item, so the result is 10 | high (proved; not executed) | `Exact.TableTakesConflictingPair` | `Exact.ExactIsOptimal` |
| OptymalizacjaKombinatoryczna/OptymalizacjaKombinatoryczna.cpp:118-130 | a positive `dp[p][w]` only says that items `0..p-1` reach a positive value. It does not say item `p` was chosen, yet it blocks inclusion | weights [1,1,1], values [1,1,100], conflicts [[],[2],[1]], W = 2: in the table, item 2 is blocked because row 1 is positive, and it returns 2 | items 0 and 2 do not conflict and together are worth 101 | high (proved; not executed) | `Exact.TableBlocksFeasibleItem` | `Exact.ExactIsOptimal` |

`Exact.ExactBest` is the corrected definition, and `Exact.ExactIsOptimal`
proves it optimal. `Exact.GreedyAtMostExact` proves it bounds both greedy
passes. `Dynamic.KnapsackDynamic` deliberately keeps the recurrence as
written.
