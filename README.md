# Water-jug solver (lew.cpp) in Dafny

A model of the solver in `lew.cpp`. Given glasses with positive capacities and
a target level for each, the solver finds the least number of operations that
take the glasses from all-empty to the target levels. An operation fills a
glass, empties it, or pours one glass into another until the source is empty
or the destination is full. The answer is `-1` when no sequence of operations
reaches the target.

The modules follow the program's layers:

- `Arith`: `gcd`, C++'s truncating `/` and `%`, and the extended-Euclid loop of
  `modInverse`, both as a function and as the loop itself. It also holds the
  divisibility and congruence facts the other modules rely on.
- `Jugs`: states, the three operations, and the successors in the order the
  search generates them. `Layer(cap, d)` is the set of states reachable from
  all-empty in exactly `d` operations. It is the reference definition that
  soundness, completeness and minimality are stated against.
- `Precheck`: `canPossiblyReach` and `solveIfTrivial` as loops. The lemmas
  prove that the pre-check never rejects a reachable target, and that the
  empty-or-full shortcut's answer is the exact distance.
- `TwoJugs`: the three counting formulas and `solveForTwo`. "No solution",
  which the source writes as `LLONG_MAX`, is `None` here.
- `Search`: `tryState`, `tryFillEmpty` and `tryPourFrom` as methods.
  - They update the working vector `cur` (an `array<int>`) in place and
    restore it.
  - `visited` and the queue are passed in and returned, as the source passes
    them by reference.
  - Each method is proved equal to `Explore`, which tries a list of
    candidate states in order.
- `Bfs`: `bfsSolve`, proved against `Layer`.
  - A returned count is reachable in exactly that many operations.
  - For any goal other than all-empty, no shorter sequence reaches it.
  - `-1` means the goal is unreachable.
  - The proof keeps ghost distances for the visited states and the set of
    states already expanded.
- `Solver`: `isAlreadyAtTarget` and the driver `solve`.

As a worked example, for capacities `[3, 5]` and target `[0, 4]` the closed
form weighs two strategies. Filling the 3 and pouring into the 5 takes 8
operations, and filling the 5 and pouring into the 3 takes 7, so it answers 7
(`Solver.WorkedExample`).

## Model

| member | source | states |
|---|---|---|
| Arith.TruncRem | lew.cpp:83 | C++ `%` for a positive modulus: the result lies strictly between `-m` and `m`, has the sign of the dividend, and is congruent to it |
| Arith.TruncDiv | lew.cpp:152 | C++ `/` for a positive divisor: quotient times divisor plus `TruncRem` gives the dividend back, and an exact division is exact |
| Arith.Gcd | lew.cpp:12 | the gcd is 0 exactly when both operands are; `GcdDivides` and `GcdGreatest` prove it is the greatest common divisor |
| Arith.GcdDivides | lew.cpp:12 | `gcd(a, b)` divides both operands |
| Arith.GcdGreatest | lew.cpp:12 | every common divisor of `a` and `b` divides `gcd(a, b)` |
| Arith.GcdOfReduced | lew.cpp:95-99 | dividing both operands by their gcd leaves co-prime operands, as the formulas' `fd`, `td` need |
| Arith.GcdAll | lew.cpp:40-43 | the gcd folded from 0 over the capacities is 0 exactly when every capacity is; `GcdAllDivides` and `GcdAllGreatest` prove it is their greatest common divisor |
| Arith.GcdAllDivides | lew.cpp:40-43 | the gcd folded over all capacities from 0 divides every capacity |
| Arith.GcdAllGreatest | lew.cpp:40-43 | every common divisor of the capacities divides the folded gcd |
| Arith.ExtEuclidBezout | lew.cpp:73-82 | `ExtEuclid`, the extended-Euclid loop one iteration per call, keeps `a ≡ x1·val` and `b ≡ x0·val` and ends with `x1·val ≡ gcd(val, mod)` |
| Arith.EuclidLoopStep | lew.cpp:74-82 | one loop iteration is one Euclid step: `a - q*b` is `a mod b`, and the gcd and the final `x1` are unchanged |
| Arith.ModInverse | lew.cpp:72-84 | the result lies in `[0, mod)` and `val·x ≡ gcd(val, mod)`, which is 1 for co-prime operands |
| Arith.ComputeModInverse | lew.cpp:72-84 | the loop itself returns `ModInverse(val, mod)`; for co-prime operands `val·x ≡ 1 (mod mod)` |
| Jugs.PourInto | lew.cpp:244-246 | a pour keeps the total, moves `s[i] - t[i] ≥ 0` into `j`, stops with the source empty or the destination full, and changes no other glass |
| Jugs.EmptyFillMoves | lew.cpp:265-278 | the empty, then the fill, of glass `i`, each only when it changes the glass; every state produced respects the capacities |
| Jugs.PourMoves | lew.cpp:235-253 | no pours out of an empty glass, otherwise the pours into the other glasses that are not full, in index order; every state produced respects the capacities |
| Jugs.Moves | lew.cpp:299-306 | for each glass in turn, its empty and fill, then its pours; every state produced respects the capacities, and `MovesSound` and `MovesComplete` prove these are exactly the state-changing operations |
| Jugs.MovesSound | lew.cpp:299-306 | every successor the search generates is the result of one operation that changes the state |
| Jugs.MovesComplete | lew.cpp:299-306 | every operation that changes the state yields one of the generated successors |
| Jugs.MovesUpToPrefix | lew.cpp:299-306 | the successors for the first `m` glasses are a prefix of those for the first `m'` glasses |
| Jugs.PourMovesUpToPrefix | lew.cpp:240-253 | the pours into the first `m` glasses are a prefix of the pours into the first `m'` glasses |
| Jugs.PourMovesUpToHas | lew.cpp:240-253 | a pour into any other glass `j < m` that is not full is among the pours into the first `m` glasses |
| Jugs.LayerNext | lew.cpp:293-306 | a successor of a state reachable in `d` operations is reachable in `d + 1` |
| Jugs.LayerPrev | lew.cpp:293-306 | a state reachable in `d > 0` operations has a predecessor reachable in `d - 1` |
| Jugs.LayerInBounds | lew.cpp:289-306 | every reachable state respects the capacities |
| Jugs.LayerOccupied | lew.cpp:53-67 | a state reachable in `d` operations has at most `d` non-empty glasses |
| Jugs.StepDivisible | lew.cpp:36-46 | every operation keeps every level a multiple of a common divisor of the capacities |
| Jugs.LayerDivisible | lew.cpp:36-46 | a divisor of every capacity divides every reachable level |
| Jugs.StepBoundary | lew.cpp:36-49 | after any operation some glass is empty or full |
| Jugs.LayerBoundary | lew.cpp:36-49 | every reachable state of a non-empty set of glasses has a glass that is empty or full |
| Precheck.CanPossiblyReach | lew.cpp:39-51 | answers true exactly when every target is a multiple of the gcd of the capacities and some target is empty or full |
| Precheck.PrecheckSound | lew.cpp:36-51 | every reachable target passes the pre-check, so it never rejects a solvable instance |
| Precheck.SolveIfTrivial | lew.cpp:54-67 | when every target is empty or full, the answer is the number of full targets; otherwise it is `-1` |
| Precheck.PartialFillReachable | lew.cpp:54-67 | filling the full-target glasses among the first `k` reaches that state in as many operations |
| Precheck.OccupiedCountFull | lew.cpp:54-67 | for an all-empty-or-full target, the number of non-empty glasses is the count of full targets |
| Precheck.TrivialIsOptimal | lew.cpp:54-67 | the shortcut's count is exact: the target is reachable in that many operations and in no fewer |
| TwoJugs.MinOpt | lew.cpp:171-211 | `min` against `LLONG_MAX`: "no solution" only if both are; otherwise one of the operands, no larger than either count |
| TwoJugs.ReducedFillCount | lew.cpp:99-103 | `k = (tgt·inv) mod td`, with `td` for 0, is the least positive `k` with `fd·k ≡ tgt (mod td)` |
| TwoJugs.ReduceByGcd | lew.cpp:95-99 | dividing `from`, `to` and `target` by their common divisor keeps the fill counts that fit |
| TwoJugs.FillCount | lew.cpp:95-103 | the least positive number of fills `k` with `k·from ≡ target (mod to)`, at most `to / gcd` |
| TwoJugs.CountOpsTargetInTo | lew.cpp:89-107 | 0 or 1 in the early cases; "no solution" exactly when `target` is not a multiple of the gcd; otherwise even, with `(r/2 - k)·to = k·from - target` and at least `2k` |
| TwoJugs.CountOpsTargetInFrom | lew.cpp:112-130 | 0 or 1 in the early cases; "no solution" exactly when `target` is not a multiple of the gcd; otherwise odd, with `((r+1)/2 - k)·to = k·from - target` and at least `2k - 1` |
| TwoJugs.CountOpsTargetInFromToFull | lew.cpp:134-156 | "no solution" exactly when `target` is not a multiple of the gcd or `k·from < target + to`; otherwise even, with `(r/2 - k)·to = k·from - target - to` |
| TwoJugs.Strategies | lew.cpp:171-209 | the counts `solveForTwo` weighs, in its order; some strategy is enabled exactly when one target is empty or full, and `SomeStrategyApplies` proves one has a count after the pre-check |
| TwoJugs.LeastExtend | lew.cpp:171-211 | folding one more strategy into the running minimum keeps it the least of all strategies seen |
| TwoJugs.ConsiderEmpty | lew.cpp:173-183 | after the block for an empty target glass, `best` is the least of the strategies tried so far |
| TwoJugs.ConsiderFull | lew.cpp:185-209 | after the block for a full target glass, `best` is the least of the strategies tried so far |
| TwoJugs.SolveForTwo | lew.cpp:161-212 | the four boundary answers 0, 2, 1, 1; otherwise the least count among every strategy the source weighs, and "no solution" only if all have none |
| TwoJugs.NoSentinelAfterPrecheck | lew.cpp:187-201 | after the pre-check, the formulas that get `+ 1` never report "no solution", so `LLONG_MAX + 1` is never evaluated |
| TwoJugs.SomeStrategyApplies | lew.cpp:161-212 | after the pre-check, some strategy always has a count, so `solveForTwo` never answers "no solution" |
| Search.ExploreAppend | lew.cpp:299-306 | trying `xs + ys` is trying `xs`, then `ys` unless the goal was met |
| Search.ExploreFound | lew.cpp:215-226 | `Explore`, `tryState` applied to each candidate in turn, meets the goal exactly when the goal is among them |
| Search.ExploreExtends | lew.cpp:223-224 | trying candidates only adds to the visited set and appends to the queue |
| Search.ExploreVisits | lew.cpp:223-224 | when the goal is not met, the new visited set is the old one plus the candidates |
| Search.ExploreQueues | lew.cpp:223-224 | each newly visited state is queued once, at distance `steps` |
| Search.TryState | lew.cpp:215-226 | `tryState` tries the current state as the one candidate |
| Search.TryFillEmpty | lew.cpp:261-280 | tries the empty, then the fill, of glass `i` in order, and leaves `cur` as it was unless the goal was met |
| Search.TryPourFrom | lew.cpp:231-255 | tries the pours out of glass `i` in index order, and leaves `cur` as it was unless the goal was met |
| Search.PourAndTry | lew.cpp:241-252 | one pass of `tryPourFrom`'s loop tries the pour of `i` into `j` unless `j` is `i` or full, and undoes it unless the goal was met |
| Bfs.InitInvariant | lew.cpp:289-291 | the initial visited set and queue satisfy the search invariant |
| Bfs.ShallowStatesVisited | lew.cpp:293-306 | once all states recorded below level `L` are expanded, every state reachable in `k ≤ L` operations is recorded at distance at most `k` |
| Bfs.ExhaustedUnreachable | lew.cpp:307-308 | once the queue is empty, no goal other than all-empty is reachable |
| Bfs.ExpandPreserves | lew.cpp:294-306 | expanding the head without meeting the goal keeps the search invariant, one level on |
| Bfs.ExpandGlass | lew.cpp:300-305 | one pass of the `for` loop tries the empty, the fill and the pours of glass `i`, in order |
| Bfs.ExpandState | lew.cpp:298-306 | the `for` loop tries every successor of the head state, in generation order |
| Bfs.HeadOutcome | lew.cpp:293-306 | meeting the goal at the head's distance plus one is meeting it as early as possible; otherwise the invariant holds again and the search makes progress |
| Bfs.ExpandHead | lew.cpp:293-306 | one iteration of the `while` loop: an answer is reachable and minimal, or the invariant is kept and the measure decreases |
| Bfs.BfsSolve | lew.cpp:283-309 | a count `r ≥ 1` is reachable in `r` operations and, for goals other than all-empty, in no fewer; `-1` means unreachable |
| Solver.IsAlreadyAtTarget | lew.cpp:328-333 | true exactly when every target is 0 |
| Solver.Solve | lew.cpp:338-353 | 0 for no glasses or an all-empty target; `-1` when the pre-check fails, and `-1` only for unreachable targets; the shortcut's count for empty-or-full targets; for other than two glasses an exact least distance; for two glasses that pass the pre-check always a count, the least among the closed form's strategies |
| Solver.StrategiesNonNegative | lew.cpp:161-212 | for targets the glasses can hold, every strategy count is non-negative, so it cannot be confused with `-1` |
| Solver.WorkedExample | lew.cpp:173-176 | for capacities 3 and 5 and target `(0, 4)`, the two strategies count 8 and 7 |

## Left out

- Input and output (`readInput`, `main`, lew.cpp:311-361) are not modelled. The capacities and targets are parameters. Every capacity is positive, since zero capacities are dropped on input. Every target lies between 0 and its capacity, which the input is promised to satisfy.
- The wyhash fingerprint (`wymum`, `computeHash`, lew.cpp:14-34) is replaced by exact state equality. Two distinct states never compare equal here, while the source accepts a small risk of a fingerprint collision.
- Fixed-width integers: `ll` and `int` are unbounded here. The model does not capture the overflow of `k * from` or of `2 * k + 2 * j` for large capacities. `LLONG_MAX + 1` at lew.cpp:187-188 and 200-201 is proved never evaluated after the pre-check, and not modelled otherwise.
- Solver.Solve: `static_cast<int>` of the two-glass answer is modelled only for "no solution", which becomes `-1`. A count above `INT_MAX` would wrap in the source but not here.
- Solver.Solve: for two glasses the contract states that the answer is the least count among the closed form's strategies, not that it is the least number of operations. That the strategy list covers every optimal sequence of operations is not proved.
- Bfs.BfsSolve: minimality is not stated for the all-empty goal. For that goal `bfsSolve` never tests the initial state and answers a later revisit of all-empty. `solve` answers 0 before calling it.
- `std::unordered_set` and `std::queue` are a `set` and a `seq`. `result` as an out-parameter is the returned count.
- `tryState` copies `cur` into the queue. Here the copy is `cur[..]`, a value, so no aliasing between the queued states and `cur` is modelled.

