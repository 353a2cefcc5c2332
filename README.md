# Ant colony and nearest-neighbour TSP, modelled in Dafny

This project models the two Travelling Salesman routines of the
AntColony-algorithm repository. It proves what each one promises about the
tours it builds.

- **The ant-colony engine** (`AntColony` in `antColony.ts`).
  - It keeps an n-by-n distance table and an n-by-n pheromone table over the
    cities. They are the `array2<real>` fields of the class
    `AntColonyEngine.AntColony`.
  - Each ant starts at `startIndex` and picks the next unvisited city by
    roulette wheel: each city is weighted by `pheromone^alpha *
    (1/distance)^beta`. At the end the ant returns to the start.
  - After all ants of an iteration have walked, every cell of the pheromone
    table evaporates at rate `rho` and receives `q / length` from each tour
    that uses that edge.
  - `run` keeps the first shortest tour it has seen and the history of all
    iterations.
- **The greedy nearest-neighbour solver** (`nearestNeighborTSP` in `index.ts`).
  - From the starting point it repeatedly moves to the nearest unvisited
    point. The lowest index wins ties.
  - It then closes the path back to the start and measures it with
    `calculateTotalDistance`.

## Modules

| module | what it holds |
|---|---|
| `Common` (common.dfy) | `Option`, which stands for the `Infinity` sentinels, and `Result`, which stands for the thrown error |
| `Geometry` (geometry.dfy) | `City`; `EuclideanDistance` over an abstract norm that stands for `Math.sqrt(dx*dx + dy*dy)` |
| `Tours` (tours.dfy) | tours as index sequences, closed-tour permutations, visited flags, `indexOf` and the edge test of the pheromone update |
| `Roulette` (roulette.dfy) | the candidate list, its running sums, the roulette choice and the wheel scan |
| `AntColonyEngine` (ant_colony.dfy) | the class `AntColony` with its two tables and every method of `antColony.ts` |
| `NearestNeighbor` (nearest_neighbor.dfy) | `calculateTotalDistance`, the argmin scan and `nearestNeighborTSP` |

### Abstractions

- **Numbers** are exact `real`s.
- **`Math.sqrt`** becomes a parameter `norm` with three properties:
  - it is non-negative;
  - it is zero only for the zero vector;
  - it is unchanged when the vector is negated.
- **`Math.pow`** becomes a parameter `pow` that is non-negative on a
  non-negative base.
- **`Math.random() * sum`** becomes a parameter `scale` with
  `0 <= scale(t) < t` for `t > 0` and `scale(0) == 0`.
  - Each ant takes one such draw per move: `draws(k)`.
  - `run` takes one sequence of draws per iteration and ant:
    `draws(i, j)`.

## Model

| member | source | states |
|---|---|---|
| `Geometry.EuclideanDistance` | index.ts:3-7 | the distance is non-negative, and zero exactly when the two points share both coordinates |
| `Geometry.EuclideanSymmetric` | index.ts:3-7 | the distance from p1 to p2 equals the distance from p2 to p1 |
| `AntColonyEngine.AntColony.constructor` | antColony.ts:15-34 | the object is valid, the configuration is stored, the distance table is filled, and every pheromone cell is 1/(n·n) |
| `AntColonyEngine.AntColony.CalculateDistanceMatrix` | antColony.ts:36-55 | a fresh n-by-n table whose cell (i, j) is 0 on the diagonal and the Euclidean distance of cities i and j elsewhere |
| `AntColonyEngine.AntColony.DistanceMatrixShape` | antColony.ts:36-55 | the distance table has a zero diagonal, is symmetric, and is positive off the diagonal when no two cities share a position |
| `AntColonyEngine.AntColony.InitializePheromoneMatrix` | antColony.ts:57-67 | a fresh size-by-size table in which every cell is 1/(size·size), hence positive |
| `AntColonyEngine.AntColony.LevelsCells` | antColony.ts:126 | the table value `Levels()` is n by n and holds, in row a and column b, the pheromone level of edge (a, b) |
| `AntColonyEngine.AntColony.ValidLevels` | antColony.ts:119-131 | in a valid colony the cities are well placed and the pheromone table is an n-by-n table with no negative level |
| `AntColonyEngine.Desirability` | antColony.ts:125-128 | when `pow` is non-negative on non-negative bases, the weight pheromone^alpha · (1/distance)^beta of an edge with a non-negative level is non-negative |
| `AntColonyEngine.PowersNonNegative` | antColony.ts:127-128 | a product of two powers of non-negative bases is non-negative |
| `AntColonyEngine.AntColony.WeightsFromCurrent` | antColony.ts:123-131 | the weight sequence from the current city holds, at every other city j, the desirability of edge (current, j) under the given table; no entry is negative when the table has no negative level |
| `AntColonyEngine.AntColony.EntryWeight` | antColony.ts:124-128 | the weight computed from the two matrices for city i is entry i of the weight sequence of the current table |
| `AntColonyEngine.AntColony.CandidateList` | antColony.ts:121-131 | the list built is exactly the candidate list: the unvisited cities in increasing order, each with its weight from the current city under the current table |
| `Roulette.Candidates` | antColony.ts:121-131 | the candidate list of cities below m has at most m entries |
| `Roulette.CandidatesSound` | antColony.ts:123-130 | each candidate is an unvisited city below m that carries its own weight |
| `Roulette.CandidatesPrefix` | antColony.ts:123-130 | scanning fewer cities gives a prefix of the candidate list, so candidates stay in increasing index order |
| `Roulette.CandidateOrigin` | antColony.ts:123-130 | the candidate at position k is a city c, and the list up to and including it is exactly the candidate list of cities 0..c |
| `Roulette.CandidatePosition` | antColony.ts:123-130 | every unvisited city j appears in the list, right after the candidates below j |
| `Roulette.SomeCandidate` | antColony.ts:123-130 | while some city is unvisited, the candidate list is not empty |
| `Roulette.WheelReady` | antColony.ts:123-133 | with an unvisited city and non-negative weights, the wheel has candidates and none of them has a negative weight |
| `Roulette.TotalNonNegative` | antColony.ts:133 | the sum of non-negative candidate weights is non-negative |
| `Roulette.CumulativeNonNegative` | antColony.ts:133-138 | with non-negative weights, every running sum is non-negative |
| `Roulette.SpinWheel` | antColony.ts:133-142 | the returned city is the candidate at the position where the running sum first reaches the draw `scale(sum)` |
| `Roulette.Scan` | antColony.ts:135-142 | when the draw is at most the total weight, the scan returns the first candidate whose running sum reaches it, so it never falls off the end of the list |
| `Roulette.FirstCrossing` | antColony.ts:133-142 | where the scan stops is the roulette choice: an unvisited city whose cumulative weight reaches the draw, while no unvisited city before it does |
| `Roulette.RouletteChoiceUnique` | antColony.ts:137-142 | at most one city is the roulette choice for a given draw |
| `Roulette.ZeroWeightsPickFirstUnvisited` | antColony.ts:133-142 | when every weight is zero, the chosen city has no unvisited city before it |
| `AntColonyEngine.AntColony.SelectNextCity` | antColony.ts:119-143 | the result is an unvisited city, and it is the roulette choice from the current city, over the weights of the current pheromone table, for the draw |
| `AntColonyEngine.AntColony.WheelIsChoice` | antColony.ts:119-143 | the candidate where the scan stops is unvisited and is the roulette choice over the weights from the current city |
| `Tours.VisitedFlags` | antColony.ts:98-109 | the visited array after a prefix of moves has n flags, and flag c is set exactly when c occurs in the prefix |
| `Tours.Extend` | antColony.ts:108-109 | pushing an unvisited city keeps the tour duplicate-free and in range, and it sets only that city's flag |
| `Tours.SomeUnvisited` | antColony.ts:106-107 | while fewer than n distinct cities are on the tour, some city is unvisited |
| `Tours.Coverage` | antColony.ts:106-116 | distinct indices below n number at most n, and exactly n iff every index below n occurs |
| `Tours.ElementsSize` | antColony.ts:106-116 | helper for `Tours.Coverage`: a duplicate-free sequence has as many distinct elements as entries |
| `Tours.Range` | antColony.ts:106-116 | helper for `Tours.Coverage` and `Tours.ElementsSize`: the set of indices below n has n elements |
| `Tours.Close` | antColony.ts:113-116 | n distinct cities from the start, followed by the start again, form a closed tour: a permutation of 0..n-1 anchored at both ends |
| `AntColonyEngine.AntColony.AntStepsExtend` | antColony.ts:106-111 | a walk of roulette moves, extended by the roulette choice from its last city, is again a walk of roulette moves |
| `AntColonyEngine.AntColony.MovesKept` | antColony.ts:106-111 | pushing a city leaves the earlier moves of the walk as they were |
| `AntColonyEngine.AntColony.AntTourClosed` | antColony.ts:113-116 | returning to the start leaves the walk's roulette moves unchanged, so a closed walk of n roulette moves is an ant's tour |
| `AntColonyEngine.AntColony.WalkStart` | antColony.ts:97-104 | the ant at `startIndex`, with only that city marked visited, is a walk |
| `AntColonyEngine.AntColony.WalkExtend` | antColony.ts:106-111 | a walk followed by the roulette choice from its last city, with that city marked visited, is again a walk: distinct cities from `startIndex`, their flags, roulette moves only |
| `AntColonyEngine.AntColony.WalkClosed` | antColony.ts:113-116 | a walk through all n cities followed by `startIndex` is an ant's tour |
| `AntColonyEngine.AntColony.GenerateAntTour` | antColony.ts:96-117 | the tour is an ant's tour under the current pheromone table: n+1 entries, starting and ending at `startIndex`, its first n entries a permutation of 0..n-1, and move k the roulette choice for the draw `draws(k - 1)` |
| `AntColonyEngine.AntColony.PathLengthNonNegative` | antColony.ts:147-151 | the sum of the table entries over consecutive pairs is non-negative |
| `AntColonyEngine.AntColony.PathLengthAtLeastFirstStep` | antColony.ts:147-151 | the sum over consecutive pairs is at least the first pair's entry |
| `AntColonyEngine.AntColony.ClosedTourDistance` | antColony.ts:145-156 | on a closed tour the closing term is a zero diagonal entry, so the length is the sum over its n steps; with two or more cities it is positive |
| `AntColonyEngine.AntColony.CalculateTourDistance` | antColony.ts:145-156 | the result is the sum over consecutive pairs plus the entry from the last city back to the first; it is non-negative, and equals the consecutive-pair sum when the tour ends where it starts |
| `Tours.IndexOf` | antColony.ts:163 | the position of the first occurrence of x, or -1 exactly when x does not occur |
| `Tours.FollowsOnClosedTour` | antColony.ts:163-164 | on a closed tour the first-occurrence test credits (i, j) exactly when one of the tour's n steps goes from i to j |
| `AntColonyEngine.AntColony.DepositStep` | antColony.ts:162-167 | taking one more tour into the deposit adds q / length when that tour credits the cell, and nothing otherwise |
| `AntColonyEngine.AntColony.DepositNonNegative` | antColony.ts:161-167 | with q ≥ 0 and positive tour lengths, every deposit is non-negative |
| `AntColonyEngine.AntColony.DepositOffEdges` | antColony.ts:161-167 | a cell that is on no tour's edge receives no deposit |
| `AntColonyEngine.AntColony.TourDeposit` | antColony.ts:161-167 | the accumulated deposit is the sum of q / length over the tours that credit the cell |
| `AntColonyEngine.Reinforced` | antColony.ts:168-169 | with 0 ≤ rho ≤ 1 and a non-negative level and deposit, the new level is between 0 and level + deposit |
| `AntColonyEngine.EvaporationBounds` | antColony.ts:168-169 | evaporation at a rate in [0, 1] keeps between none and all of a non-negative level |
| `AntColonyEngine.AntColony.UpdatePheromoneRow` | antColony.ts:160-170 | every cell of row i becomes (1 - rho)·old + its deposit; the other rows are untouched; the table stays non-negative |
| `AntColonyEngine.AntColony.UpdatePheromoneMatrix` | antColony.ts:158-172 | every cell becomes (1 - rho)·old + its deposit, which is the simultaneous update even though it runs in place; every entry stays non-negative |
| `AntColonyEngine.AntColony.ShortestNeverIncreases` | antColony.ts:80-83 | once a tour has been measured, measuring more tours never increases the shortest distance |
| `AntColonyEngine.AntColony.FirstShortestStep` | antColony.ts:79-83 | a new tour becomes the best exactly when it is strictly shorter than the best so far (or is the first), so a tie keeps the earlier tour |
| `AntColonyEngine.AntColony.ClosedToursMeasurable` | antColony.ts:79 | with two or more cities, every closed tour has a positive length, so q / length is defined |
| `AntColonyEngine.AntColony.AntsOfIteration` | antColony.ts:75-84 | one iteration yields numAnts closed tours, ant j's tour being an ant's tour under the table as it stands for the draws `draws(i, j)`; the best tour stays the first shortest of all tours measured so far |
| `AntColonyEngine.AntColony.AntToursExtend` | antColony.ts:76-78 | appending the next ant's tour, walked with that ant's draws, to tours that each were walked with their own ant's draws keeps every tour a roulette walk with its own ant's draws |
| `AntColonyEngine.AntColony.PheromoneAfterStep` | antColony.ts:85-86 | one more history record applies one more evaporate-and-deposit round to every cell |
| `AntColonyEngine.AntColony.LevelsAfter` | antColony.ts:86 | the table after a history of updates is again n by n |
| `AntColonyEngine.AntColony.LevelsMatch` | antColony.ts:86 | when every cell holds its level after the history, the pheromone table as a value is the table after the history |
| `AntColonyEngine.AntColony.AntsRecordedStep` | antColony.ts:76-86 | recording an iteration whose ants walked under the table the earlier records left keeps every recorded ant a roulette walk under the table of its own iteration |
| `AntColonyEngine.AntColony.AntsRecordedAll` | antColony.ts:74-87 | ant k of record r walked by roulette, with the draws `draws(r, k)`, under the table that records 0..r-1 left; no ant sees the deposits of its own iteration |
| `AntColonyEngine.AntColony.RecordsStep` | antColony.ts:85 | appending the record numbered after the history keeps the records numbered 1, 2, ..., each with numAnts measurable tours, and adds its tours to the end of all tours |
| `AntColonyEngine.AntColony.RecordedStep` | antColony.ts:74-85 | after one more iteration the records are still numbered, sized and measurable, all their tours are closed, the best tour is the first shortest of all of them, there are no tours exactly when there are no ants, and every recorded ant walked under the table of its iteration |
| `AntColonyEngine.AntColony.RecordedIntro` | antColony.ts:74-85 | helper for `RunIteration`: those facts make up `Recorded` |
| `AntColonyEngine.AntColony.RunIteration` | antColony.ts:74-87 | one iteration appends exactly one record and keeps `Progress`: the records so far, the first shortest tour among them, the pheromone table they left, and every ant a roulette walk under its iteration's table |
| `AntColonyEngine.AntColony.Run` | antColony.ts:69-94 | `iterations` records numbered 1..iterations with `numAnts` closed tours each; the shortest distance is absent exactly when there were no iterations or no ants, and otherwise it is the length of `bestTour`, the first tour of least length among all tours; every pheromone cell is its initial value put through one evaporate-and-deposit round per iteration, in order, so the table is `LevelsAfter` of the initial one; every recorded ant walked by roulette under the table its iteration started with (`AntsRecorded`, spelled out by `AntsRecordedAll`) |
| `NearestNeighbor.PathDistance` | index.ts:9-15 | a path length is non-negative, and it is 0 for paths of at most one point |
| `NearestNeighbor.CalculateTotalDistance` | index.ts:9-15 | the loop's total is the sum of the distances between consecutive points |
| `NearestNeighbor.PathDistancePrepend` | index.ts:9-15 | prepending a point adds exactly its distance to the old first point |
| `NearestNeighbor.Reverse` | index.ts:9-15 | helper for `PathDistanceReversed`: the reversed path has the same length, with entry k taken from the mirrored position |
| `NearestNeighbor.PathDistanceReversed` | index.ts:9-15 | walking a path backwards gives the same total distance |
| `NearestNeighbor.NearestUnvisited` | index.ts:33-44 | -1 exactly when every point is visited; otherwise an unvisited point at least as near as every unvisited point and strictly nearer than every unvisited point before it |
| `NearestNeighbor.NearestUnique` | index.ts:36-44 | the nearest unvisited point, with lowest index on ties, is unique |
| `NearestNeighbor.GreedyExtend` | index.ts:46-49 | a walk of greedy moves, extended by the nearest unvisited point of its last point, is again a walk of greedy moves |
| `NearestNeighbor.GreedyMovesKept` | index.ts:46-49 | pushing a point leaves the earlier greedy moves as they were |
| `NearestNeighbor.GreedyClosed` | index.ts:55 | closing the walk back to its start leaves its greedy moves unchanged |
| `NearestNeighbor.GreedyWalk` | index.ts:26-53 | the walk visits all n points once each, starting at `startingIndex`; each move goes to the nearest unvisited point; the `break` is never taken |
| `NearestNeighbor.NearestNeighborTSP` | index.ts:17-60 | empty input gives an empty path of length 0; a starting index out of range gives the error "Invalid starting index"; otherwise the n+1 points start and end at the starting point, visit every point exactly once, make greedy moves only, and carry the path's total distance including the closing leg |

## Left out

- The demo at index.ts:62-78 is left out. It holds constant data and console output.
- `Math.sqrt`, `Math.pow` and `Math.random` are not modelled. They are the parameters `norm`, `pow` and `scale`/`draws` described above, constrained only by the facts the algorithms use.
- IEEE floating point is not modelled. That covers rounding, `NaN`, the `Infinity` from `1/0` and the `Infinity` start value of the best distance, which becomes `Option.None`.
  - The `Infinity` of `minDistance` in `nearestNeighborTSP` is also `None`.
- The source accepts cities that share a position, which give `1/0`. `DistinctPositions` is a precondition of the class instead.
- The random start city at antColony.ts:99-102 is left out. That branch is dead because `startIndex` is always set; the model always starts at `startIndex`.
- The constructor validates nothing. Its assumptions (valid `startIndex`, 0 ≤ rho ≤ 1, q ≥ 0, distinct positions) are `requires` clauses of the constructor, not error results.
- AntColonyEngine.AntColony.Run requires at least two cities. With one city every tour has length 0 and the deposit `q / 0` is not a number.
- AntColonyEngine.AntColony.SelectNextCity requires an unvisited city and a draw `scale(total)` with 0 ≤ draw < total, or 0 when the total is 0. Over exact reals it then never reaches the implicit `undefined` return at antColony.ts:143. That return exists only through rounding or an empty candidate list, which the callers never produce.
- AntColonyEngine.AntColony.CalculateTourDistance requires a non-empty tour. On `[]` the source indexes `tour[-1]` and throws; every tour it is given has n + 1 entries.
- The `visited` arrays of `generateAntTour` and `nearestNeighborTSP` are not shared mutable arrays. Each is a local `seq<bool>` value, reassigned with one flag changed, so nothing else can alias it.
- The pheromone update's inner loops, the ant loop of `run` and the body of its iteration loop are separate methods: `UpdatePheromoneRow`, `TourDeposit`, `AntsOfIteration` and `RunIteration`. The candidate loop of `selectNextCity` is `CandidateList`. The scan of `nearestNeighborTSP` is `NearestUnvisited` and its walk is `GreedyWalk`, and the wheel of `selectNextCity` is `Roulette.SpinWheel`/`Roulette.Scan`. The order of operations is the source's.
- `indexOf` is the function `Tours.IndexOf`. It is not a loop because the source calls the built-in.
- The total of the candidate weights is the function `Roulette.TotalProbability`, the source's `reduce`.
- `throw new Error("Invalid starting index")` is modelled as `Failure("Invalid starting index")`. The exception is not propagated.
- The optional `feromone` field of `City` (types.ts:5) is not modelled. No code reads it.
- index.ts imports a `Point` type that types.ts does not declare. Both solvers use the model's `City`.
- The implementation is followed where a general description of ant colony optimisation would say otherwise:
  - no uniform fallback when all weights are zero (the wheel then stops at the first unvisited city);
  - no clamping of zero distances;
  - `tour.indexOf(i)` credits only the edge after the first occurrence of i.
