# Greedy breakout-room assignment, modelled in Dafny

This project models `solve(G, s, magic)` and `dummy_solution(n)` from
`solver.py`. `solve` seats students (the nodes of a graph whose edges carry a
happiness and a stress weight) in breakout rooms. It works in four steps:

1. It fills dense happiness and stress matrices from the edge list.
2. It scores each edge with the ratio happiness/stress, or the happiness alone
   when the stress is 0. It sorts the pairs by descending ratio.
3. It walks the sorted pairs and keeps the stress of the current room at or
   below the per-room threshold `s / magic`. Each pair is skipped, seated
   below the threshold, seated exactly at the threshold (which closes the room),
   split into two fresh rooms, dropped, or seated in a newly opened room.
4. It returns the mapping and one more than the number of distinct room ids.
   It returns `({}, 0)` instead if an iteration starts with
   `current_room > magic`. Room 0 is open from the start, so the loop still
   goes on when `current_room == magic`, with `magic + 1` rooms opened.

`dummy_solution(n)` is the identity fallback: student i goes to room i.

Files:

- `matrices.dfy` (module `Matrices`): the graph as `n` plus an edge sequence,
  and the value of each matrix cell (`Entry`: the weight of the last edge
  joining the two students, else 0). It also holds the shared-row matrix the
  source really builds; see Findings.
- `ratios.dfy` (module `Ratios`): the ratio, the list of ratio pairs, and the
  stable sort by descending ratio with its properties.
- `greedy.dfy` (module `Greedy`): the loop state as a value, and one iteration
  (`Classify` picks the branch, `Step` applies it). It also has the walk
  without the early exit (`Fold`), the walk with it (`Run`), what `solve`
  returns (`Solution`), and the invariants.
- `budget.dfy` (module `Budget`): the stress really inside a room, meaning
  the sum over every pair of distinct students seated in it, and the proof
  that each room of the result stays within `s / magic`.
- `solver.dfy` (module `Solver`): the imperative code. `SolverState` is a class
  holding the variables the loop and the nested helper `assign` mutate, with
  `assigned` as an `array<bool>`. Its method `Walk` is the assignment loop,
  and `Visit` (with `SplitOrDrop` for its third case) is the loop body.
  `FillMatrices` fills two `array2<real>` in a loop. `RowStress` and
  `PotentialStressOf` are the inhabitant sums. `Solve` puts these together and
  `DummySolution` is the fallback loop. Every method except `DummySolution`
  is proved equal to the value model. `DummySolution` has no value model: its
  contract states its keys and values directly.

Numbers are exact `real`s, so the equality test against the threshold is a
clean case split. The edge order of the graph is the input order of `edges`.

The model follows the code as written in these places, each of which is easy
to misread:

- When the new-room branch opens a room, it does not clear `inhabitants`. The
  helper `assign` appends to the list (solver.py:23, 106-108). The old
  inhabitants therefore still count toward later potential-stress sums, while
  `current_room_stress` restarts at the pair's own stress. Clearing the list
  there would leave only `u` and `v` as inhabitants of the new room, so that
  later sums covered just the students really seated in it.
- The deferred branch (solver.py:102-104) drops the pair for good.
- The code does not reject negative weights or a bad edge list before it
  starts. The model's only preconditions are that every edge names one of the
  `n` students (`Graph.Valid`) and that `magic >= 1`. Without the second,
  `s / magic` divides by zero.
- The visiting order is non-increasing in the ratio, not strictly
  decreasing. Pairs with equal ratios keep their edge order, because Python's
  `sorted` is stable.

Per-room budget: when no edge has negative stress and `s >= 0`, every room of
the returned mapping holds at most `s / magic` of stress between its students
(`Budget.SolutionWithinBudget`). The kept inhabitants only add non-negative
terms to the potential-stress sums, so `current_room_stress` is never below the
stress really in the current room, and every room is closed at or below the
threshold.

## Model

| member | source | states |
|---|---|---|
| `Matrices.Entry` | solver.py:27-41 | defines cell [a][b] of a zero-initialised matrix with independent rows, after each edge in order writes its weight into [u][v] and then [v][u] |
| `Matrices.EntryIsLastJoiningEdge` | solver.py:33-41 | after the fill, cell [a][b] holds the weight of the last edge joining a and b, in edge order |
| `Matrices.EntryWithoutEdge` | solver.py:27-28 | a pair of students that no edge joins keeps the initial 0 |
| `Matrices.EntrySymmetric` | solver.py:38-41 | both matrices are symmetric: [a][b] equals [b][a] |
| `Matrices.SharedRowCell` | solver.py:27-28 | with all rows one shared list, column c holds 0 unless some edge has endpoint c |
| `Matrices.AliasedMatrixIsWrong` | solver.py:27-41 | for edges (0,1) of stress 2 and (2,3) of stress 1, the shared row reads 2 at [2][0] and 1 at [0][2]; independent rows read 0 at both |
| `Ratios.Ratio` | solver.py:44-47 | the ratio equals the happiness when the stress is 0; otherwise ratio times stress equals the happiness, so no division by zero occurs |
| `Ratios.RatioPairs` | solver.py:33-49 | one pair per edge, same position, with that edge's endpoints and ratio |
| `Ratios.SortByRatio` | solver.py:52 | the sorted list is non-increasing by ratio and a permutation (same multiset) of its input |
| `Ratios.SortIsStable` | solver.py:52 | for every ratio value, the entries with that ratio appear in the same order as in the input |
| `Ratios.StableOrderIsUnique` | solver.py:52 | two lists that are both non-increasing and agree on their entries of every ratio, in order, are equal |
| `Ratios.SortIsTheStableOrder` | solver.py:52 | any non-increasing list that keeps the input order within each ratio is exactly the sort result |
| `Greedy.Order` | solver.py:33-52 | defines the visiting order: the ratio pairs of the edges, in edge order, stably sorted by descending ratio; every pair names two students |
| `Greedy.Threshold` | solver.py:58 | defines the per-room threshold `s / magic`; times `magic` it gives back `s` |
| `Greedy.StressTo` | solver.py:90-91 | defines a student's summed stress with a list of people, added in list order |
| `Greedy.PotentialStress` | solver.py:73-76 | defines the potential stress: the room stress plus the pair's stress plus both students' stress with every inhabitant |
| `Greedy.Classify` | solver.py:67-108 | defines which of the six outcomes an iteration takes: skip, below, at the threshold, split, drop, or new room, by the tests at lines 68, 79, 83, 89 and 94 |
| `Greedy.WithPair` | solver.py:18-23 | defines `assign`: both students get the room, both are marked assigned, and both are appended to the inhabitants |
| `Greedy.Step` | solver.py:64-108 | defines one iteration after the early-exit test, applying the outcome `Classify` picks; the `assigned` list keeps its length |
| `Greedy.Run` | solver.py:61-63 | defines the loop over the pairs: it gives up when an iteration starts with `current_room > magic`, and otherwise ends in the state the steps produce |
| `Greedy.Solution` | solver.py:61-110 | defines what `solve` returns: `({}, 0)` when `Run` gives up, and otherwise the final assignments with one more than the number of distinct room ids |
| `Greedy.Initial` | solver.py:53-54 | the start state satisfies the loop invariant, with no student assigned |
| `Greedy.StepPreservesInv` | solver.py:18-108 | one iteration keeps the invariant: `assigned[x]` holds exactly when x has a room, only students have rooms, room ids are at most `current_room`, inhabitants are students |
| `Greedy.StepKeepsRooms` | solver.py:67-69 | a student who has a room keeps the same room after an iteration |
| `Greedy.StepRoomCounter` | solver.py:84-108 | `current_room` rises by 0, 1 or 3 in one iteration |
| `Greedy.StepStressBound` | solver.py:78-108 | with a non-negative threshold, `current_room_stress <= threshold` is kept; the below-threshold branch leaves it strictly below |
| `Greedy.StepPlacement` | solver.py:18-108 | skip happens exactly when an endpoint is assigned; skip and defer change nothing; a seated pair shares the current room, or the next one after abandoning it; a split puts v in `current_room + 2` and u in `current_room + 1` (when u differs from v); exactly u and v gain rooms |
| `Greedy.FoldPreservesInv` | solver.py:61-108 | the invariant holds after any number of iterations |
| `Greedy.FoldKeepsRooms` | solver.py:61-108 | over any run of iterations the room counter never decreases and no assigned student moves |
| `Greedy.FoldStressBound` | solver.py:61-108 | over any run of iterations with a non-negative threshold, the current room's stress stays at most the threshold |
| `Greedy.RunIsFoldUnlessAborted` | solver.py:61-63 | the loop gives up exactly when some iteration begins with `current_room > magic`; otherwise it ends in the state all its iterations produce |
| `Greedy.SolutionCases` | solver.py:61-110 | the result is `({}, 0)` exactly when some iteration starts with too many rooms; otherwise it is the final assignments (students only, invariant holding) and a count of distinct room ids plus one |
| `Greedy.SolutionStressBound` | solver.py:58-108 | with a non-negative budget, every iteration of `solve` ends with `current_room_stress <= s / magic` |
| `Greedy.SolutionKeepsRooms` | solver.py:67-110 | a student seated after any prefix of the loop has the same room in the final state of the loop when it does not abort |
| `Budget.EntryNonNegative` | solver.py:38-41 | with no negative edge stress, no cell of the stress matrix is negative |
| `Budget.GroupBelowList` | solver.py:73-76 | with no negative stress, a student's summed stress with a list of inhabitants is at least their stress with any group of students that the list contains, repeated or not |
| `Budget.SeatPairStress` | solver.py:73-76 | seating u and v with a group raises the group's internal stress by at most their own stress plus each one's stress with the group |
| `Budget.InitialWithinBudget` | solver.py:53-58 | at the start every room respects the budget invariant: all rooms are empty |
| `Budget.SeatedWithinBudget` | solver.py:78-86 | seating a pair below or at the threshold keeps every room within the threshold and the current room's real stress at most `current_room_stress` |
| `Budget.SplitRooms` | solver.py:89-101 | a split seats v alone in room `current_room + 2`, and u alone in room `current_room + 1` (that room stays empty when u equals v). No other room changes, and neither new room has any internal stress |
| `Budget.SplitWithinBudget` | solver.py:89-101 | a split keeps the budget invariant: the two new rooms have no internal stress, and the room it moves to, `current_room + 3`, is empty |
| `Budget.NewRoomWithinBudget` | solver.py:105-108 | opening a new room keeps the budget invariant. The new room holds u and v, and its real stress is at most the pair's stress, which is what `current_room_stress` becomes |
| `Budget.StepWithinBudget` | solver.py:64-108 | every branch of one iteration keeps the budget invariant |
| `Budget.FoldWithinBudget` | solver.py:61-108 | the budget invariant holds after any number of iterations |
| `Budget.SolutionWithinBudget` | solver.py:58-110 | with no negative edge stress and `s >= 0`, every room of the mapping `solve` returns has at most `s / magic` of stress between its students, the boundary case of a room filled exactly to the threshold included |
| `Solver.SolverState.constructor` | solver.py:53-54 | the object starts as the initial state, with n unassigned students |
| `Solver.SolverState.Assign` | solver.py:18-23 | the helper puts both students into the room, marks both assigned and appends both to the inhabitants |
| `Solver.SolverState.Walk` | solver.py:61-108 | the loop on the object gives up exactly when `Greedy.Run` aborts, and otherwise leaves the object in the state `Greedy.Run` ends in |
| `Solver.SolverState.Visit` | solver.py:64-108 | one loop iteration on the object leaves it in the state `Greedy.Step` gives |
| `Solver.SolverState.SplitOrDrop` | solver.py:89-104 | splitting or dropping a pair whose own stress exceeds the threshold leaves the object in the state `Greedy.Step` gives |
| `Solver.FillMatrices` | solver.py:26-49 | fills both n-by-n matrices with independent rows to the values of `Entry`, and returns one ratio pair per edge in edge order |
| `Solver.RowStress` | solver.py:90-91 | returns the sum of a student's stress with each inhabitant |
| `Solver.PotentialStressOf` | solver.py:73-76 | returns the room stress plus the pair stress plus both students' stress with every inhabitant |
| `Solver.Solve` | solver.py:8-110 | returns exactly `Solution`: `({}, 0)` precisely when some iteration starts with too many rooms, otherwise students-only assignments and a count of distinct room ids plus one |
| `Solver.SolveResult` | solver.py:61-110 | the result `Solve` builds from the loop's outcome is `Solution`. The count is 0 exactly when too many rooms were opened, and then the map is empty. Every key is a student |
| `Solver.DummySolution` | solver.py:125-129 | returns a map whose keys are exactly 0..n-1, with each i mapped to i, of size n |

## Left out

- The driver under `if __name__ == '__main__'` (solver.py:131-159) is not modelled. It globs a directory, reads and writes files, prints, and searches `magic = 1..n`. This is I/O plumbing.
- `is_valid_solution` and `calculate_happiness` come from `utils`, which is not part of this model. Only the driver calls them.
- networkx is replaced by an explicit node count and edge sequence. The iteration order of `G.edges` becomes the order of that sequence. Nodes are assumed to be labelled 0..n-1, as the source's indexing requires.
- IEEE floating point is not modelled. `h/s`, `s/magic`, the sums and the `==` test use exact reals. The source's integer zeros are the real 0.
- The commented-out single-file runner (solver.py:116-123) is not modelled.
- Budget.SolutionWithinBudget: proved only when no edge has negative stress and `s >= 0`. The model does not assume either in general, because the code does not check them. With a negative stress, the kept inhabitants can make `current_room_stress` lower than the stress really in the room.
- Budget.GroupStress: a room's stress adds up pairs of distinct students only. A self-loop edge's stress is not counted, since a student is not paired with themself.
- Greedy.StepPlacement: for a self-loop edge (u equal to v) in the split branch, the contract states only that the student ends in `current_room + 2`, since the second write overwrites the first.
- The loop of `solve` is the method `SolverState.Walk` rather than inline code. Its body after the early-exit test is `SolverState.Visit`, and the third case of that body is `SolverState.SplitOrDrop`. This way each iteration is proved on its own. `Walk` returns a flag for the early `return {}, 0`, and `Solve` then returns `({}, 0)`. The `return` statements in `Visit` and `SplitOrDrop` stand for the source's `continue`.

## Findings

| source | as written | input that shows it | evidently intended | confidence | as-written member | corrected member |
|---|---|---|---|---|---|---|
| solver.py:27-28 | Both matrices are built by repeating one row list n times, so all n rows are the same list. A write to cell [i][j] is seen in every row, so `strez[a][b]` reads the weight of the last edge touching column b. The matrix is then neither symmetric nor 0 between unconnected students. | edges (0,1) with stress 2 and (2,3) with stress 1: `strez[2][0]` reads 2 and `strez[0][2]` reads 1, where both should be 0. So the potential stress of pair (2,3) next to inhabitants 0 and 1 gains 8 phantom units. | independent rows, so that cell [a][b] holds the weight of the edge joining a and b (writes at solver.py:38-41) | high, not executed | `Matrices.AliasedEntry` (shown by `Matrices.AliasedMatrixIsWrong`) | `Matrices.Entry` (proved by `Matrices.EntrySymmetric` and `Matrices.EntryWithoutEdge`), used by `Solver.FillMatrices` and the whole model |
