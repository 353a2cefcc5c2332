/**
 * The ant-colony engine: a distance table and a pheromone table over n
 * cities, ants that build closed tours by roulette-wheel choice, and a run
 * loop that evaporates and reinforces the pheromone once per iteration.
 */
module AntColonyEngine {
  import opened Common
  import opened Geometry
  import opened Tours
  import opened Roulette

  /** One entry of the run's history: the iteration number and every ant's tour in it. */
  datatype IterationRecord = IterationRecord(iteration: nat, tours: seq<Tour>)

  /** `pow` stands for `Math.pow`: on a non-negative base its result is non-negative. */
  ghost predicate IsNonNegativePower(pow: (real, real) -> real)
  {
    forall b, e :: 0.0 <= b ==> 0.0 <= pow(b, e)
  }

  /** The distance-table entry of cities i and j: zero on the diagonal, their Euclidean distance elsewhere. */
  function DistanceEntry(cities: seq<City>, norm: (real, real) -> real, i: nat, j: nat): real
    requires IsEuclideanNorm(norm) && i < |cities| && j < |cities|
  {
    if i == j then 0.0 else EuclideanDistance(cities[i], cities[j], norm)
  }

  /** All tours of a history, iteration after iteration, each iteration's in ant order. */
  function Generated(history: seq<IterationRecord>): seq<Tour>
  {
    if history == [] then []
    else Generated(history[..|history| - 1]) + history[|history| - 1].tours
  }

  lemma ProductNonNegative(a: real, b: real)
    requires 0.0 <= a && 0.0 <= b
    ensures 0.0 <= a * b
  {
  }

  lemma QuotientNonNegative(a: real, b: real)
    requires 0.0 <= a && 0.0 < b
    ensures 0.0 <= a / b
  {
  }

  /**
   * The desirability of an edge: its pheromone to the power alpha times its
   * visibility (the inverse of its distance) to the power beta.
   */
  function Desirability(pow: (real, real) -> real, alpha: real, beta: real, pheromone: real, distance: real): (w: real)
    requires 0.0 < distance
    ensures IsNonNegativePower(pow) && 0.0 <= pheromone ==> 0.0 <= w
  {
    var visibility := 1.0 / distance;
    PowersNonNegative(pow, pheromone, alpha, visibility, beta);
    pow(pheromone, alpha) * pow(visibility, beta)
  }

  /** Powers of non-negative bases under a non-negative `pow` have a non-negative product. */
  lemma PowersNonNegative(pow: (real, real) -> real, b1: real, e1: real, b2: real, e2: real)
    ensures IsNonNegativePower(pow) && 0.0 <= b1 && 0.0 <= b2 ==> 0.0 <= pow(b1, e1) * pow(b2, e2)
  {
    if IsNonNegativePower(pow) && 0.0 <= b1 && 0.0 <= b2 {
      ProductNonNegative(pow(b1, e1), pow(b2, e2));
    }
  }

  /**
   * A pheromone level after one update: what survives evaporation at rate
   * rho, plus the deposit. Evaporation never makes a level negative.
   */
  function Reinforced(rho: real, level: real, deposit: real): (r: real)
    ensures 0.0 <= rho <= 1.0 && 0.0 <= level && 0.0 <= deposit ==> 0.0 <= r <= level + deposit
  {
    EvaporationBounds(rho, level);
    (1.0 - rho) * level + deposit
  }

  /** Evaporating at a rate in [0, 1] leaves between nothing and all of a non-negative level. */
  lemma EvaporationBounds(rho: real, level: real)
    ensures 0.0 <= rho <= 1.0 && 0.0 <= level ==> 0.0 <= (1.0 - rho) * level <= level
  {
    if 0.0 <= rho <= 1.0 && 0.0 <= level {
      ProductNonNegative(1.0 - rho, level);
      ProductNonNegative(rho, level);
    }
  }

  class AntColony {
    const cities: seq<City>
    const numAnts: nat
    const alpha: real
    const beta: real
    const rho: real
    const q: real
    const startIndex: nat
    const norm: (real, real) -> real
    const pow: (real, real) -> real

    const distanceMatrix: array2<real>
    const pheromoneMatrix: array2<real>

    /** The configuration and the distance table: everything a tour's length depends on. */
    ghost predicate Measured()
      reads distanceMatrix
    {
      var n := |cities|;
      startIndex < n && 0.0 <= rho <= 1.0 && 0.0 <= q &&
      IsEuclideanNorm(norm) && IsNonNegativePower(pow) && DistinctPositions(cities) &&
      distanceMatrix.Length0 == n && distanceMatrix.Length1 == n &&
      forall i, j :: 0 <= i < n && 0 <= j < n ==> distanceMatrix[i, j] == DistanceEntry(cities, norm, i, j)
    }

    /** The object invariant: a measured colony with an n-by-n, non-negative pheromone table. */
    ghost predicate Valid()
      reads distanceMatrix, pheromoneMatrix
    {
      Measured() && distanceMatrix != pheromoneMatrix &&
      pheromoneMatrix.Length0 == |cities| && pheromoneMatrix.Length1 == |cities| &&
      forall i, j :: 0 <= i < |cities| && 0 <= j < |cities| ==> 0.0 <= pheromoneMatrix[i, j]
    }

    constructor (cities: seq<City>, numAnts: nat, alpha: real, beta: real, rho: real, q: real,
                 startIndex: nat, norm: (real, real) -> real, pow: (real, real) -> real)
      requires startIndex < |cities| && 0.0 <= rho <= 1.0 && 0.0 <= q
      requires IsEuclideanNorm(norm) && IsNonNegativePower(pow) && DistinctPositions(cities)
      ensures Valid() && fresh(distanceMatrix) && fresh(pheromoneMatrix)
      ensures this.cities == cities && this.numAnts == numAnts && this.alpha == alpha && this.beta == beta
      ensures this.rho == rho && this.q == q && this.startIndex == startIndex
      ensures this.norm == norm && this.pow == pow
      ensures forall i, j :: 0 <= i < |cities| && 0 <= j < |cities| ==>
        pheromoneMatrix[i, j] == 1.0 / (|cities| * |cities|) as real
    {
      var distances := CalculateDistanceMatrix(cities, norm);
      var pheromones := InitializePheromoneMatrix(|cities|);
      this.cities := cities;
      this.numAnts := numAnts;
      this.alpha := alpha;
      this.beta := beta;
      this.rho := rho;
      this.q := q;
      this.startIndex := startIndex;
      this.norm := norm;
      this.pow := pow;
      distanceMatrix := distances;
      pheromoneMatrix := pheromones;
    }

    /** Fills a fresh n-by-n table with the pairwise distances of the cities. */
    static method CalculateDistanceMatrix(cities: seq<City>, norm: (real, real) -> real) returns (matrix: array2<real>)
      requires IsEuclideanNorm(norm)
      ensures fresh(matrix) && matrix.Length0 == |cities| && matrix.Length1 == |cities|
      ensures forall i, j :: 0 <= i < |cities| && 0 <= j < |cities| ==>
        matrix[i, j] == DistanceEntry(cities, norm, i, j)
    {
      var numCities := |cities|;
      matrix := new real[numCities, numCities];
      for i := 0 to numCities
        invariant forall a, b :: 0 <= a < i && 0 <= b < numCities ==>
          matrix[a, b] == DistanceEntry(cities, norm, a, b)
      {
        for j := 0 to numCities
          invariant forall a, b :: 0 <= a < i && 0 <= b < numCities ==>
            matrix[a, b] == DistanceEntry(cities, norm, a, b)
          invariant forall b :: 0 <= b < j ==> matrix[i, b] == DistanceEntry(cities, norm, i, b)
        {
          if i == j {
            matrix[i, j] := 0.0;
          } else {
            var city1 := cities[i];
            var city2 := cities[j];
            var distance := EuclideanDistance(city1, city2, norm);
            matrix[i, j] := distance;
          }
        }
      }
    }

    /** Fills a fresh size-by-size table with 1 / size², a positive value. */
    static method InitializePheromoneMatrix(size: nat) returns (matrix: array2<real>)
      requires 0 < size
      ensures fresh(matrix) && matrix.Length0 == size && matrix.Length1 == size
      ensures forall i, j :: 0 <= i < size && 0 <= j < size ==>
        matrix[i, j] == 1.0 / (size * size) as real && 0.0 < matrix[i, j]
    {
      var initialValue := 1.0 / (size * size) as real;
      matrix := new real[size, size];
      for i := 0 to size
        invariant forall a, b :: 0 <= a < i && 0 <= b < size ==> matrix[a, b] == initialValue
      {
        for j := 0 to size
          invariant forall a, b :: 0 <= a < i && 0 <= b < size ==> matrix[a, b] == initialValue
          invariant forall b :: 0 <= b < j ==> matrix[i, b] == initialValue
        {
          matrix[i, j] := initialValue;
        }
      }
    }

    /** The distance table is zero on the diagonal, symmetric, and positive off the diagonal. */
    lemma DistanceMatrixShape()
      requires Measured()
      ensures forall i :: 0 <= i < |cities| ==> distanceMatrix[i, i] == 0.0
      ensures forall i, j :: 0 <= i < |cities| && 0 <= j < |cities| ==>
        distanceMatrix[i, j] == distanceMatrix[j, i]
      ensures forall i, j :: 0 <= i < |cities| && 0 <= j < |cities| && i != j ==>
        0.0 < distanceMatrix[i, j]
    {
      forall i, j | 0 <= i < |cities| && 0 <= j < |cities|
        ensures distanceMatrix[i, j] == distanceMatrix[j, i]
      {
        if i != j {
          EuclideanSymmetric(cities[i], cities[j], norm);
        }
      }
    }

    /** Distances are Euclidean and no two cities share a position, so distinct cities are a positive distance apart. */
    ghost predicate Placed()
    {
      IsEuclideanNorm(norm) && DistinctPositions(cities)
    }

    /** An n-by-n table of pheromone levels, held as a value. */
    ghost predicate IsTable(table: seq<seq<real>>)
    {
      |table| == |cities| && forall a :: 0 <= a < |table| ==> |table[a]| == |cities|
    }

    /** No level of the table is negative. */
    ghost predicate NonNegativeTable(table: seq<seq<real>>)
      requires IsTable(table)
    {
      forall a, b :: 0 <= a < |cities| && 0 <= b < |cities| ==> 0.0 <= table[a][b]
    }

    /** The pheromone table as it stands, as a value: row a, column b holds the level of edge (a, b). */
    ghost function Levels(): (table: seq<seq<real>>)
      reads pheromoneMatrix
      requires pheromoneMatrix.Length0 == |cities| && pheromoneMatrix.Length1 == |cities|
      ensures IsTable(table)
    {
      LevelRowsShape(); LevelRows(|cities|)
    }

    lemma LevelRowsShape()
      requires pheromoneMatrix.Length0 == |cities| && pheromoneMatrix.Length1 == |cities|
      ensures IsTable(LevelRows(|cities|))
    {
      LevelRowsCells(|cities|);
      forall a | 0 <= a < |cities|
        ensures |LevelRows(|cities|)[a]| == |cities|
      {
        LevelRowCells(a, |cities|);
      }
    }

    /** Rows 0 .. m-1 of the pheromone table. */
    ghost function LevelRows(m: nat): seq<seq<real>>
      reads pheromoneMatrix
      requires pheromoneMatrix.Length0 == |cities| && pheromoneMatrix.Length1 == |cities| && m <= |cities|
    {
      if m == 0 then [] else LevelRows(m - 1) + [LevelRow(m - 1, |cities|)]
    }

    /** Columns 0 .. m-1 of row a of the pheromone table. */
    ghost function LevelRow(a: nat, m: nat): seq<real>
      reads pheromoneMatrix
      requires pheromoneMatrix.Length0 == |cities| && pheromoneMatrix.Length1 == |cities| && a < |cities| && m <= |cities|
    {
      if m == 0 then [] else LevelRow(a, m - 1) + [pheromoneMatrix[a, m - 1]]
    }

    lemma {:induction false} LevelRowCells(a: nat, m: nat)
      requires pheromoneMatrix.Length0 == |cities| && pheromoneMatrix.Length1 == |cities| && a < |cities| && m <= |cities|
      ensures |LevelRow(a, m)| == m && forall b :: 0 <= b < m ==> LevelRow(a, m)[b] == pheromoneMatrix[a, b]
    {
      if m > 0 {
        LevelRowCells(a, m - 1);
      }
    }

    lemma {:induction false} LevelRowsCells(m: nat)
      requires pheromoneMatrix.Length0 == |cities| && pheromoneMatrix.Length1 == |cities| && m <= |cities|
      ensures |LevelRows(m)| == m && forall a :: 0 <= a < m ==> LevelRows(m)[a] == LevelRow(a, |cities|)
    {
      if m > 0 {
        LevelRowsCells(m - 1);
      }
    }

    /** The table value holds, in row a and column b, the level of edge (a, b). */
    lemma LevelsCells()
      requires pheromoneMatrix.Length0 == |cities| && pheromoneMatrix.Length1 == |cities|
      ensures IsTable(Levels())
      ensures forall a, b :: 0 <= a < |cities| && 0 <= b < |cities| ==> Levels()[a][b] == pheromoneMatrix[a, b]
    {
      LevelRowsCells(|cities|);
      forall a | 0 <= a < |cities|
        ensures forall b :: 0 <= b < |cities| ==> Levels()[a][b] == pheromoneMatrix[a, b]
      {
        LevelRowCells(a, |cities|);
      }
    }

    /** The levels of a valid colony form a non-negative n-by-n table over well-placed cities. */
    lemma ValidLevels()
      requires Valid()
      ensures Placed() && IsTable(Levels()) && NonNegativeTable(Levels())
    {
      LevelsCells();
    }

    /** The weight of the move from `current` to j under the levels of `table`: the desirability of that edge. */
    ghost function EdgeWeight(table: seq<seq<real>>, current: nat, j: nat): real
      requires Placed() && IsTable(table) && current < |cities| && j < |cities| && j != current
    {
      Desirability(pow, alpha, beta, table[current][j], DistanceEntry(cities, norm, current, j))
    }

    /** The weights of all moves from `current` (the entry for `current` itself is never a candidate). */
    ghost function Weights(table: seq<seq<real>>, current: nat): (w: seq<real>)
      requires Placed() && IsTable(table) && current < |cities|
      ensures |w| == |cities|
    {
      WeightsBelow(table, current, |cities|)
    }

    ghost function WeightsBelow(table: seq<seq<real>>, current: nat, m: nat): (w: seq<real>)
      requires Placed() && IsTable(table) && current < |cities| && m <= |cities|
      ensures |w| == m
    {
      if m == 0 then []
      else WeightsBelow(table, current, m - 1) + [if m - 1 == current then 0.0 else EdgeWeight(table, current, m - 1)]
    }

    /**
     * Each weight from `current` is the desirability of that move; with a
     * non-negative `pow` and non-negative levels none is negative.
     */
    lemma WeightsFromCurrent(table: seq<seq<real>>, current: nat)
      requires Placed() && IsTable(table) && current < |cities|
      ensures forall j :: 0 <= j < |cities| && j != current ==> Weights(table, current)[j] == EdgeWeight(table, current, j)
      ensures IsNonNegativePower(pow) && NonNegativeTable(table) ==>
        forall j :: 0 <= j < |cities| ==> 0.0 <= Weights(table, current)[j]
    {
      WeightsBelowFromCurrent(table, current, |cities|);
    }

    lemma {:induction false} WeightsBelowFromCurrent(table: seq<seq<real>>, current: nat, m: nat)
      requires Placed() && IsTable(table) && current < |cities| && m <= |cities|
      ensures forall j :: 0 <= j < m && j != current ==> WeightsBelow(table, current, m)[j] == EdgeWeight(table, current, j)
      ensures IsNonNegativePower(pow) && NonNegativeTable(table) ==>
        forall j :: 0 <= j < m ==> 0.0 <= WeightsBelow(table, current, m)[j]
    {
      if m > 0 {
        WeightsBelowFromCurrent(table, current, m - 1);
      }
    }

    /**
     * `next` is the roulette choice from `current` under the levels of
     * `table`, given the visited flags: the wheel over the weights of the
     * moves from `current`, stopped by the draw `scale(total weight of the
     * unvisited cities)`.
     */
    ghost predicate IsChoice(table: seq<seq<real>>, visited: seq<bool>, current: nat, scale: real -> real, next: nat)
      requires Placed() && IsTable(table) && current < |cities| && |visited| == |cities|
    {
      var w := Weights(table, current);
      IsRouletteChoice(visited, w, scale(CumulativeWeight(visited, w, |cities|)), next)
    }

    /**
     * Roulette-wheel choice of the next city: the candidates are the unvisited
     * cities in increasing order, each with its weight from `currentIndex`
     * under the current pheromone table; the draw is `scale` of the sum of
     * their weights, and the chosen city is the first whose running sum
     * reaches the draw.
     */
    method SelectNextCity(currentIndex: nat, visited: seq<bool>, scale: real -> real) returns (next: nat)
      requires Valid() && currentIndex < |cities|
      requires |visited| == |cities| && visited[currentIndex]
      requires exists j :: 0 <= j < |cities| && !visited[j]
      requires IsScaledDraw(scale)
      ensures next < |cities| && !visited[next]
      ensures IsChoice(Levels(), visited, currentIndex, scale, next)
    {
      ValidLevels();
      ghost var table := Levels();
      WeightsFromCurrent(table, currentIndex);
      var probabilities := CandidateList(currentIndex, visited);
      WheelReady(visited, Weights(table, currentIndex));
      ghost var position;
      next, position := SpinWheel(probabilities, scale);
      WheelIsChoice(table, visited, currentIndex, scale, probabilities, position);
    }

    /**
     * The candidate list from `currentIndex`: the unvisited cities in
     * increasing order, each with its weight under the current table.
     */
    method CandidateList(currentIndex: nat, visited: seq<bool>) returns (probabilities: seq<Candidate>)
      requires Valid() && currentIndex < |cities|
      requires |visited| == |cities| && visited[currentIndex]
      ensures Placed() && IsTable(Levels())
      ensures probabilities == Candidates(visited, Weights(Levels(), currentIndex), |cities|)
    {
      ghost var table := Levels();
      ghost var w := Weights(table, currentIndex);
      probabilities := [];
      for i := 0 to |cities|
        invariant probabilities == Candidates(visited, w, i)
      {
        if !visited[i] {
          var probability := Desirability(pow, alpha, beta, pheromoneMatrix[currentIndex, i], distanceMatrix[currentIndex, i]);
          EntryWeight(table, currentIndex, i);
          probabilities := probabilities + [Candidate(i, probability)];
        }
      }
    }

    /** The weight computed from the matrices is the weight of the edge in the current table. */
    lemma EntryWeight(table: seq<seq<real>>, current: nat, i: nat)
      requires Valid() && current < |cities| && i < |cities| && i != current && table == Levels()
      ensures Placed() && IsTable(table) && |Weights(table, current)| == |cities|
      ensures Desirability(pow, alpha, beta, pheromoneMatrix[current, i], distanceMatrix[current, i])
           == Weights(table, current)[i]
    {
      LevelsCells();
      WeightsFromCurrent(table, current);
    }

    /** Where the scan over the candidate list stops is the roulette choice from `current`. */
    lemma WheelIsChoice(table: seq<seq<real>>, visited: seq<bool>, current: nat, scale: real -> real,
                        cs: seq<Candidate>, position: nat)
      requires Placed() && IsTable(table) && current < |cities| && |visited| == |cities|
      requires cs == Candidates(visited, Weights(table, current), |cities|)
      requires IsFirstCrossing(cs, scale(TotalProbability(cs)), position)
      ensures cs[position].cityIndex < |cities| && !visited[cs[position].cityIndex]
      ensures IsChoice(table, visited, current, scale, cs[position].cityIndex)
    {
      FirstCrossing(visited, Weights(table, current), cs, scale(TotalProbability(cs)), position);
    }

    /**
     * One move of an ant that has visited `prefix`: `c` is the roulette
     * choice from the last city of `prefix` for the scaled draw `scale`.
     */
    ghost predicate IsAntStep(table: seq<seq<real>>, prefix: seq<nat>, scale: real -> real, c: nat)
      requires Placed() && IsTable(table) && 0 < |prefix| && Below(prefix, |cities|)
    {
      IsChoice(table, VisitedFlags(prefix, |cities|), prefix[|prefix| - 1], scale, c)
    }

    /** The move to t[k] (1 <= k < |t|) is the ant step from t[..k] for the draw `draws(k - 1)`. */
    ghost predicate IsMove(table: seq<seq<real>>, t: seq<nat>, draws: nat -> real -> real, k: nat)
      requires Placed() && IsTable(table) && Below(t, |cities|) && 1 <= k < |t|
    {
      IsAntStep(table, t[..k], draws(k - 1), t[k])
    }

    /** Every move of the partial tour t is an ant step. */
    ghost predicate AntSteps(table: seq<seq<real>>, t: seq<nat>, draws: nat -> real -> real)
      requires Placed() && IsTable(table) && Below(t, |cities|)
    {
      forall k :: 1 <= k < |t| ==> IsMove(table, t, draws, k)
    }

    /**
     * A tour one ant builds under the levels of `table`: a closed tour from
     * `startIndex` whose move k is the roulette choice for the draw `draws(k - 1)`.
     */
    ghost predicate IsAntTour(table: seq<seq<real>>, t: seq<nat>, draws: nat -> real -> real)
      requires Placed() && IsTable(table)
    {
      IsClosedTour(t, |cities|, startIndex) && AntSteps(table, t[..|cities|], draws)
    }

    /** A walk of ant steps followed by the roulette choice from its last city is again a walk of ant steps. */
    lemma AntStepsExtend(table: seq<seq<real>>, t: seq<nat>, visited: seq<bool>, current: nat,
                         draws: nat -> real -> real, scale: real -> real, c: nat)
      requires Placed() && IsTable(table) && 0 < |t| && Below(t, |cities|) && c < |cities|
      requires AntSteps(table, t, draws) && visited == VisitedFlags(t, |cities|)
      requires current == t[|t| - 1] && scale == draws(|t| - 1)
      requires IsChoice(table, visited, current, scale, c)
      ensures Below(t + [c], |cities|) && AntSteps(table, t + [c], draws)
    {
      MovesKept(table, t, draws, c);
      var t' := t + [c];
      assert t'[..|t|] == t;
      assert IsAntStep(table, t, scale, c);
      assert IsMove(table, t', draws, |t|);
    }

    /** Appending a city to a walk leaves the walk's own moves as they were. */
    lemma MovesKept(table: seq<seq<real>>, t: seq<nat>, draws: nat -> real -> real, c: nat)
      requires Placed() && IsTable(table) && Below(t, |cities|) && c < |cities| && AntSteps(table, t, draws)
      ensures Below(t + [c], |cities|)
      ensures forall k :: 1 <= k < |t| ==> IsMove(table, t + [c], draws, k)
    {
      forall k | 1 <= k < |t|
        ensures IsMove(table, t + [c], draws, k)
      {
        assert IsMove(table, t, draws, k);
        assert (t + [c])[..k] == t[..k];
      }
    }

    /** Closing a walk of n ant steps by returning to its start gives an ant's tour. */
    lemma AntTourClosed(table: seq<seq<real>>, walk: seq<nat>, tour: seq<nat>, draws: nat -> real -> real)
      requires Placed() && IsTable(table) && Below(walk, |cities|) && AntSteps(table, walk, draws)
      requires 0 < |walk| && tour == walk + [walk[0]] && IsClosedTour(tour, |cities|, startIndex)
      ensures IsAntTour(table, tour, draws)
    {
      assert tour[..|cities|] == walk;
    }

    /**
     * One ant's tour under the current pheromone table: start at
     * `startIndex`, make n - 1 roulette moves (move k uses the draw
     * `draws(k - 1)`), then return to `startIndex`.
     */
    method GenerateAntTour(draws: nat -> real -> real) returns (tour: Tour)
      requires Valid()
      requires forall s :: IsScaledDraw(draws(s))
      ensures IsAntTour(Levels(), tour, draws)
    {
      ValidLevels();
      ghost var table := Levels();
      var n := |cities|;
      var visited := seq(n, _ => false);
      var currentIndex := startIndex;
      WalkStart(table, visited, draws);
      tour := [currentIndex];
      visited := visited[currentIndex := true];
      for i := 1 to n
        invariant |tour| == i && currentIndex == tour[i - 1]
        invariant IsWalk(table, tour, visited, draws)
      {
        SomeUnvisited(tour, n);
        var nextCity := SelectNextCity(currentIndex, visited, draws(i - 1));
        WalkExtend(table, tour, visited, draws, currentIndex, draws(i - 1), nextCity);
        tour := tour + [nextCity];
        visited := visited[nextCity := true];
        currentIndex := nextCity;
      }
      WalkClosed(table, tour, visited, draws);
      tour := tour + [startIndex];
    }

    /**
     * A partial tour of an ant: distinct cities below n starting at
     * `startIndex`, with `visited` its flags and every move an ant step.
     */
    ghost predicate IsWalk(table: seq<seq<real>>, tour: seq<nat>, visited: seq<bool>, draws: nat -> real -> real)
      requires Placed() && IsTable(table)
    {
      0 < |tour| <= |cities| && tour[0] == startIndex && Distinct(tour) && Below(tour, |cities|) &&
      visited == VisitedFlags(tour, |cities|) && AntSteps(table, tour, draws)
    }

    /** The walk of an ant still at `startIndex`. */
    lemma WalkStart(table: seq<seq<real>>, unvisited: seq<bool>, draws: nat -> real -> real)
      requires Placed() && IsTable(table) && startIndex < |cities|
      requires unvisited == seq(|cities|, _ => false)
      ensures IsWalk(table, [startIndex], unvisited[startIndex := true], draws)
    {
      assert unvisited == VisitedFlags([], |cities|);
      Extend([], |cities|, startIndex);
    }

    /** A walk followed by the roulette choice from its last city is again a walk. */
    lemma WalkExtend(table: seq<seq<real>>, tour: seq<nat>, visited: seq<bool>, draws: nat -> real -> real,
                     current: nat, scale: real -> real, c: nat)
      requires Placed() && IsTable(table) && IsWalk(table, tour, visited, draws) && |tour| < |cities|
      requires current == tour[|tour| - 1] && scale == draws(|tour| - 1)
      requires c < |cities| && !visited[c] && IsChoice(table, visited, current, scale, c)
      ensures IsWalk(table, tour + [c], visited[c := true], draws)
    {
      AntStepsExtend(table, tour, visited, current, draws, scale, c);
      Extend(tour, |cities|, c);
    }

    /** A walk through all n cities, closed by the return to `startIndex`, is an ant's tour. */
    lemma WalkClosed(table: seq<seq<real>>, walk: seq<nat>, visited: seq<bool>, draws: nat -> real -> real)
      requires Placed() && IsTable(table) && IsWalk(table, walk, visited, draws) && |walk| == |cities|
      ensures IsAntTour(table, walk + [startIndex], draws)
    {
      Close(walk, |cities|, startIndex);
      AntTourClosed(table, walk, walk + [startIndex], draws);
    }

    /** The sum of the table entries of consecutive pairs of t, accumulated left to right. */
    ghost function PathLength(t: seq<nat>): real
      requires IsEuclideanNorm(norm) && Below(t, |cities|)
    {
      if |t| <= 1 then 0.0
      else PathLength(t[..|t| - 1]) + DistanceEntry(cities, norm, t[|t| - 2], t[|t| - 1])
    }

    /** The length `calculateTourDistance` measures: the consecutive pairs plus the step back from the last entry to the first. */
    ghost function TourDistance(t: seq<nat>): real
      requires IsEuclideanNorm(norm) && 0 < |t| && Below(t, |cities|)
    {
      PathLength(t) + DistanceEntry(cities, norm, t[|t| - 1], t[0])
    }

    lemma {:induction false} PathLengthNonNegative(t: seq<nat>)
      requires Measured() && Below(t, |cities|)
      ensures 0.0 <= PathLength(t)
    {
      if |t| > 1 {
        PathLengthNonNegative(t[..|t| - 1]);
      }
    }

    lemma {:induction false} PathLengthAtLeastFirstStep(t: seq<nat>)
      requires Measured() && Below(t, |cities|) && 2 <= |t|
      ensures DistanceEntry(cities, norm, t[0], t[1]) <= PathLength(t)
    {
      if |t| > 2 {
        PathLengthAtLeastFirstStep(t[..|t| - 1]);
      } else {
        assert PathLength(t[..1]) == 0.0;
      }
    }

    /**
     * For a closed tour the closing step of `calculateTourDistance` is a
     * diagonal entry, so the length is the sum over its n steps; with two or
     * more cities that length is positive.
     */
    lemma ClosedTourDistance(t: seq<nat>)
      requires Measured() && IsClosedTour(t, |cities|, startIndex)
      ensures TourDistance(t) == PathLength(t)
      ensures 2 <= |cities| ==> 0.0 < TourDistance(t)
    {
      if 2 <= |cities| {
        assert t[0] != t[1] by {
          assert t[..|cities|][0] == t[0] && t[..|cities|][1] == t[1];
        }
        PathLengthAtLeastFirstStep(t);
      }
    }

    /** Sums the table entries along the tour and adds the step back from the last entry to the first. */
    method CalculateTourDistance(tour: Tour) returns (distance: real)
      requires Measured() && 0 < |tour| && Below(tour, |cities|)
      ensures distance == TourDistance(tour)
      ensures 0.0 <= distance
      ensures tour[0] == tour[|tour| - 1] ==> distance == PathLength(tour)
    {
      distance := 0.0;
      for i := 0 to |tour| - 1
        invariant distance == PathLength(tour[..i + 1])
      {
        var from := tour[i];
        var to := tour[i + 1];
        assert tour[..i + 2][..i + 1] == tour[..i + 1];
        distance := distance + distanceMatrix[from, to];
      }
      assert tour[..|tour|] == tour;
      var lastCityIndex := tour[|tour| - 1];
      var firstCityIndex := tour[0];
      distance := distance + distanceMatrix[lastCityIndex, firstCityIndex];
      PathLengthNonNegative(tour);
    }

    /** A tour whose length is defined and positive, so that q / length is a number. */
    ghost predicate Measurable(t: seq<nat>)
      requires IsEuclideanNorm(norm)
    {
      0 < |t| && Below(t, |cities|) && 0.0 < TourDistance(t)
    }

    /** Every tour of ts is measurable. */
    ghost predicate AllMeasurable(ts: seq<Tour>)
      requires IsEuclideanNorm(norm)
    {
      forall k :: 0 <= k < |ts| ==> Measurable(ts[k])
    }

    /**
     * What the tours lay on cell (i, j): q / length(t) for every tour t in
     * which j follows the first occurrence of i, summed in tour order.
     */
    ghost function Deposit(antTours: seq<Tour>, i: nat, j: nat): real
      requires IsEuclideanNorm(norm) && AllMeasurable(antTours)
    {
      if antTours == [] then 0.0
      else
        var last := antTours[|antTours| - 1];
        Deposit(antTours[..|antTours| - 1], i, j) + (if Follows(last, i, j) then q / TourDistance(last) else 0.0)
    }

    lemma {:induction false} DepositNonNegative(antTours: seq<Tour>, i: nat, j: nat)
      requires Measured() && AllMeasurable(antTours)
      ensures 0.0 <= Deposit(antTours, i, j)
    {
      if antTours != [] {
        var last := antTours[|antTours| - 1];
        QuotientNonNegative(q, TourDistance(last));
        DepositNonNegative(antTours[..|antTours| - 1], i, j);
      }
    }

    /** A cell that is on no tour's edge receives nothing. */
    lemma {:induction false} DepositOffEdges(antTours: seq<Tour>, i: nat, j: nat)
      requires Measured() && AllMeasurable(antTours)
      requires forall k :: 0 <= k < |antTours| ==> !Follows(antTours[k], i, j)
      ensures Deposit(antTours, i, j) == 0.0
    {
      if antTours != [] {
        DepositOffEdges(antTours[..|antTours| - 1], i, j);
      }
    }

    /** Taking one more tour into the deposit adds that tour's share, if it credits the cell. */
    lemma DepositStep(antTours: seq<Tour>, k: nat, i: nat, j: nat)
      requires Measured() && AllMeasurable(antTours) && k < |antTours|
      ensures Measurable(antTours[k])
      ensures Deposit(antTours[..k + 1], i, j) ==
        Deposit(antTours[..k], i, j) + (if Follows(antTours[k], i, j) then q / TourDistance(antTours[k]) else 0.0)
    {
      assert antTours[..k + 1][..k] == antTours[..k];
    }

    /**
     * The deposit on cell (i, j): adds q / length over the tours in which j
     * follows the first occurrence of i.
     */
    method TourDeposit(antTours: seq<Tour>, i: nat, j: nat) returns (pheromoneDeposit: real)
      requires Measured() && AllMeasurable(antTours)
      ensures pheromoneDeposit == Deposit(antTours, i, j)
    {
      pheromoneDeposit := 0.0;
      for k := 0 to |antTours|
        invariant pheromoneDeposit == Deposit(antTours[..k], i, j)
      {
        var tour := antTours[k];
        DepositStep(antTours, k, i, j);
        var index := IndexOf(tour, i);
        if index != -1 && index + 1 < |tour| && tour[index + 1] == j {
          var length := CalculateTourDistance(tour);
          pheromoneDeposit := pheromoneDeposit + q / length;
        }
      }
      assert antTours[..|antTours|] == antTours;
    }

    /**
     * Evaporation and reinforcement of row i in place: every cell (i, j)
     * becomes (1 - rho) times its old value plus its deposit; the other rows
     * are untouched.
     */
    method UpdatePheromoneRow(antTours: seq<Tour>, i: nat)
      requires Valid() && i < |cities|
      requires AllMeasurable(antTours)
      modifies pheromoneMatrix
      ensures Valid()
      ensures forall j :: 0 <= j < |cities| ==>
        pheromoneMatrix[i, j] == Reinforced(rho, old(pheromoneMatrix[i, j]), Deposit(antTours, i, j))
      ensures forall a, b :: 0 <= a < |cities| && 0 <= b < |cities| && a != i ==>
        pheromoneMatrix[a, b] == old(pheromoneMatrix[a, b])
    {
      var n := |cities|;
      for j := 0 to n
        invariant Valid() && distanceMatrix != pheromoneMatrix
        invariant forall b :: 0 <= b < j ==>
          pheromoneMatrix[i, b] == Reinforced(rho, old(pheromoneMatrix[i, b]), Deposit(antTours, i, b))
        invariant forall b :: j <= b < n ==> pheromoneMatrix[i, b] == old(pheromoneMatrix[i, b])
        invariant forall a, b :: 0 <= a < n && 0 <= b < n && a != i ==> pheromoneMatrix[a, b] == old(pheromoneMatrix[a, b])
      {
        var pheromoneDeposit := TourDeposit(antTours, i, j);
        DepositNonNegative(antTours, i, j);
        pheromoneMatrix[i, j] := Reinforced(rho, pheromoneMatrix[i, j], pheromoneDeposit);
      }
    }

    /**
     * Evaporation and reinforcement, cell by cell in place: every cell becomes
     * (1 - rho) times its old value plus its deposit. A deposit does not read
     * the pheromone table, so the in-place update equals a simultaneous one.
     */
    method UpdatePheromoneMatrix(antTours: seq<Tour>)
      requires Valid()
      requires AllMeasurable(antTours)
      modifies pheromoneMatrix
      ensures Valid()
      ensures forall i, j :: 0 <= i < |cities| && 0 <= j < |cities| ==>
        pheromoneMatrix[i, j] == Reinforced(rho, old(pheromoneMatrix[i, j]), Deposit(antTours, i, j))
    {
      var n := |cities|;
      for i := 0 to n
        invariant Valid() && distanceMatrix != pheromoneMatrix
        invariant AllMeasurable(antTours)
        invariant forall a, b :: 0 <= a < i && 0 <= b < n ==>
          pheromoneMatrix[a, b] == Reinforced(rho, old(pheromoneMatrix[a, b]), Deposit(antTours, a, b))
        invariant forall a, b :: i <= a < n && 0 <= b < n ==> pheromoneMatrix[a, b] == old(pheromoneMatrix[a, b])
      {
        UpdatePheromoneRow(antTours, i);
      }
    }

    /** Every tour of ts is a closed tour from the start city. */
    ghost predicate AllClosed(ts: seq<Tour>)
    {
      forall k :: 0 <= k < |ts| ==> IsClosedTour(ts[k], |cities|, startIndex)
    }

    /**
     * `best` is the first tour of `ts` of least length, and `shortest` that
     * length; both are empty (`[]`, `None` for the source's Infinity) while
     * no tour has been measured.
     */
    ghost predicate IsFirstShortest(ts: seq<Tour>, best: Tour, shortest: Option<real>, pos: nat)
      requires IsEuclideanNorm(norm) && AllClosed(ts)
    {
      (shortest.None? <==> ts == []) &&
      (shortest.None? ==> best == []) &&
      (shortest.Some? ==>
        pos < |ts| && ts[pos] == best && TourDistance(best) == shortest.value &&
        (forall k :: 0 <= k < |ts| ==> shortest.value <= TourDistance(ts[k])) &&
        (forall k :: 0 <= k < pos ==> shortest.value < TourDistance(ts[k])))
    }

    /** Measuring more tours never increases the shortest length. */
    lemma ShortestNeverIncreases(ts: seq<Tour>, more: seq<Tour>,
                                 best1: Tour, shortest1: Option<real>, pos1: nat,
                                 best2: Tour, shortest2: Option<real>, pos2: nat)
      requires Measured()
      requires AllClosed(ts) && AllClosed(ts + more)
      requires IsFirstShortest(ts, best1, shortest1, pos1)
      requires IsFirstShortest(ts + more, best2, shortest2, pos2)
      requires shortest1.Some?
      ensures shortest2.Some? && shortest2.value <= shortest1.value
    {
      assert (ts + more)[pos1] == ts[pos1];
    }

    /** With two or more cities every closed tour has a positive length. */
    lemma ClosedToursMeasurable(seen: seq<Tour>, ts: seq<Tour>)
      requires Measured() && 2 <= |cities| && AllClosed(seen + ts)
      ensures AllMeasurable(ts)
    {
      forall k | 0 <= k < |ts|
        ensures Measurable(ts[k])
      {
        assert (seen + ts)[|seen| + k] == ts[k];
        ClosedTourDistance(ts[k]);
      }
    }

    /**
     * Measuring one more closed tour t: it becomes the first shortest exactly
     * when it is strictly shorter than the shortest so far (or is the first);
     * a tie keeps the earlier tour.
     */
    lemma FirstShortestStep(ts: seq<Tour>, t: Tour, best: Tour, shortest: Option<real>, pos: nat)
      requires Measured() && AllClosed(ts) && IsClosedTour(t, |cities|, startIndex)
      requires IsFirstShortest(ts, best, shortest, pos)
      ensures AllClosed(ts + [t])
      ensures shortest.None? || TourDistance(t) < shortest.value ==>
        IsFirstShortest(ts + [t], t, Some(TourDistance(t)), |ts|)
      ensures !(shortest.None? || TourDistance(t) < shortest.value) ==>
        IsFirstShortest(ts + [t], best, shortest, pos)
    {
      var ts' := ts + [t];
      assert forall k :: 0 <= k < |ts| ==> ts'[k] == ts[k];
      assert ts'[|ts|] == t;
    }

    /** The tours of every record of the history are measurable. */
    ghost predicate HistoryMeasurable(history: seq<IterationRecord>)
      requires IsEuclideanNorm(norm)
    {
      forall k :: 0 <= k < |history| ==> AllMeasurable(history[k].tours)
    }

    /**
     * The level of cell (i, j) after one pheromone update per record of the
     * history, in order, each with that record's tours, starting from `level`.
     */
    ghost function PheromoneAfter(level: real, history: seq<IterationRecord>, i: nat, j: nat): real
      requires IsEuclideanNorm(norm) && HistoryMeasurable(history)
    {
      if history == [] then level
      else
        Reinforced(rho, PheromoneAfter(level, history[..|history| - 1], i, j), Deposit(history[|history| - 1].tours, i, j))
    }

    /** One more iteration applies one more update, with that iteration's tours. */
    lemma PheromoneAfterStep(history: seq<IterationRecord>, record: IterationRecord)
      requires Measured() && HistoryMeasurable(history) && AllMeasurable(record.tours)
      ensures HistoryMeasurable(history + [record])
      ensures forall level, i, j ::
        PheromoneAfter(level, history + [record], i, j) ==
        Reinforced(rho, PheromoneAfter(level, history, i, j), Deposit(record.tours, i, j))
    {
      assert (history + [record])[..|history|] == history;
    }

    /**
     * The pheromone table after the evaporate-and-deposit rounds of
     * `history`, one per record and in order, starting from `initial`.
     */
    ghost function LevelsAfter(initial: seq<seq<real>>, history: seq<IterationRecord>): (table: seq<seq<real>>)
      requires IsEuclideanNorm(norm) && IsTable(initial) && HistoryMeasurable(history)
      ensures IsTable(table)
    {
      seq(|cities|, a requires 0 <= a < |cities| =>
        seq(|cities|, b requires 0 <= b < |cities| => PheromoneAfter(initial[a][b], history, a, b)))
    }

    /** A table whose every cell holds its level after `history` is the table after `history`. */
    lemma LevelsMatch(initial: seq<seq<real>>, history: seq<IterationRecord>)
      requires Valid() && IsTable(initial) && HistoryMeasurable(history)
      requires forall a, b :: 0 <= a < |cities| && 0 <= b < |cities| ==>
        pheromoneMatrix[a, b] == PheromoneAfter(initial[a][b], history, a, b)
      ensures Levels() == LevelsAfter(initial, history)
    {
      LevelsCells();
      var now, after := Levels(), LevelsAfter(initial, history);
      forall a | 0 <= a < |cities|
        ensures now[a] == after[a]
      {
        assert forall b :: 0 <= b < |cities| ==> now[a][b] == after[a][b];
      }
    }

    /**
     * Every recorded ant walked under the table that the records before its
     * own left, starting from `initial`: ant k of record r with the draws
     * `draws(r, k)`.
     */
    ghost predicate AntsRecorded(initial: seq<seq<real>>, history: seq<IterationRecord>,
                                 draws: (nat, nat) -> nat -> real -> real)
      requires Placed() && IsTable(initial) && HistoryMeasurable(history)
      decreases |history|
    {
      history != [] ==>
        var last := |history| - 1;
        AntsRecorded(initial, history[..last], draws) &&
        forall k :: 0 <= k < |history[last].tours| ==>
          IsAntTour(LevelsAfter(initial, history[..last]), history[last].tours[k], draws(last, k))
    }

    /** Recording one more iteration whose ants walked under the table the history left. */
    lemma AntsRecordedStep(initial: seq<seq<real>>, history: seq<IterationRecord>, record: IterationRecord,
                           draws: (nat, nat) -> nat -> real -> real)
      requires Placed() && IsTable(initial) && HistoryMeasurable(history) && HistoryMeasurable(history + [record])
      requires AntsRecorded(initial, history, draws)
      requires forall k :: 0 <= k < |record.tours| ==>
        IsAntTour(LevelsAfter(initial, history), record.tours[k], draws(|history|, k))
      ensures AntsRecorded(initial, history + [record], draws)
    {
      assert (history + [record])[..|history|] == history;
    }

    /** Spelled out per record and ant: ant k of record r walked under the table the first r records left. */
    lemma {:induction false} AntsRecordedAll(initial: seq<seq<real>>, history: seq<IterationRecord>,
                                             draws: (nat, nat) -> nat -> real -> real)
      requires Placed() && IsTable(initial) && HistoryMeasurable(history)
      requires AntsRecorded(initial, history, draws)
      ensures forall r, k :: 0 <= r < |history| && 0 <= k < |history[r].tours| ==>
        IsAntTour(LevelsAfter(initial, history[..r]), history[r].tours[k], draws(r, k))
    {
      if history != [] {
        var last := |history| - 1;
        var init := history[..last];
        AntsRecordedAll(initial, init, draws);
        forall r, k | 0 <= r < |history| && 0 <= k < |history[r].tours|
          ensures IsAntTour(LevelsAfter(initial, history[..r]), history[r].tours[k], draws(r, k))
        {
          if r < last {
            assert history[..r] == init[..r];
            assert history[r] == init[r];
          }
        }
      }
    }

    /**
     * The ants of iteration i: ant j builds a tour with the draws `draws(i, j)`
     * and the tour is measured; the first shortest tour over the earlier
     * tours `seen` and these is kept.
     */
    method AntsOfIteration(draws: (nat, nat) -> nat -> real -> real, i: nat, ghost seen: seq<Tour>,
                           bestTour: Tour, shortestDistance: Option<real>, ghost bestPos: nat)
      returns (antTours: seq<Tour>, newBest: Tour, newShortest: Option<real>, ghost newPos: nat)
      requires Valid()
      requires forall j, s :: IsScaledDraw(draws(i, j)(s))
      requires AllClosed(seen) && IsFirstShortest(seen, bestTour, shortestDistance, bestPos)
      ensures |antTours| == numAnts
      ensures AllClosed(seen + antTours)
      ensures IsFirstShortest(seen + antTours, newBest, newShortest, newPos)
      ensures Placed() && IsTable(Levels())
      ensures forall j :: 0 <= j < numAnts ==> IsAntTour(Levels(), antTours[j], draws(i, j))
    {
      ValidLevels();
      ghost var table := Levels();
      antTours := [];
      newBest, newShortest, newPos := bestTour, shortestDistance, bestPos;
      assert seen + antTours == seen;
      for j: nat := 0 to numAnts
        invariant |antTours| == j
        invariant AllClosed(seen + antTours)
        invariant IsFirstShortest(seen + antTours, newBest, newShortest, newPos)
        invariant forall k :: 0 <= k < j ==> IsAntTour(table, antTours[k], draws(i, k))
      {
        var tour := GenerateAntTour(draws(i, j));
        AntToursExtend(table, antTours, tour, draws, i);
        ghost var before := seen + antTours;
        antTours := antTours + [tour];
        assert seen + antTours == before + [tour];
        var tourDistance := CalculateTourDistance(tour);
        FirstShortestStep(before, tour, newBest, newShortest, newPos);
        if newShortest.None? || tourDistance < newShortest.value {
          newShortest := Some(tourDistance);
          newBest := tour;
          newPos := |before|;
        }
      }
    }

    /** Ants of iteration i that each walked under `table`, and one more that did, are all ants that walked under it. */
    lemma AntToursExtend(table: seq<seq<real>>, ts: seq<Tour>, t: Tour, draws: (nat, nat) -> nat -> real -> real, i: nat)
      requires Placed() && IsTable(table)
      requires forall k :: 0 <= k < |ts| ==> IsAntTour(table, ts[k], draws(i, k))
      requires IsAntTour(table, t, draws(i, |ts|))
      ensures forall k :: 0 <= k < |ts| + 1 ==> IsAntTour(table, (ts + [t])[k], draws(i, k))
    {
    }

    /**
     * The records of `history`, run from the table `initial` with the draws
     * `draws`: numbered 1, 2, ... with numAnts closed tours each, `best` the
     * first shortest of all their tours, and every ant's tour a roulette walk
     * under the table its iteration started with.
     */
    ghost predicate Recorded(initial: seq<seq<real>>, history: seq<IterationRecord>,
                             draws: (nat, nat) -> nat -> real -> real,
                             best: Tour, shortest: Option<real>, pos: nat)
      requires Placed() && IsTable(initial)
    {
      (forall k :: 0 <= k < |history| ==> history[k].iteration == k + 1 && |history[k].tours| == numAnts) &&
      (Generated(history) == [] <==> history == [] || numAnts == 0) &&
      HistoryMeasurable(history) && AllClosed(Generated(history)) &&
      IsFirstShortest(Generated(history), best, shortest, pos) &&
      AntsRecorded(initial, history, draws)
    }

    /**
     * What holds after the iterations of `history`: the records as above,
     * and the pheromone table the one they left behind.
     */
    ghost predicate Progress(initial: seq<seq<real>>, history: seq<IterationRecord>,
                             draws: (nat, nat) -> nat -> real -> real,
                             best: Tour, shortest: Option<real>, pos: nat)
      reads distanceMatrix, pheromoneMatrix
    {
      Valid() && IsTable(initial) && Recorded(initial, history, draws, best, shortest, pos) &&
      forall a, b :: 0 <= a < |cities| && 0 <= b < |cities| ==>
        pheromoneMatrix[a, b] == PheromoneAfter(initial[a][b], history, a, b)
    }

    /** Appending the record of one more iteration, whose ants walked under the table the history left. */
    lemma RecordedStep(initial: seq<seq<real>>, history: seq<IterationRecord>,
                       draws: (nat, nat) -> nat -> real -> real,
                       best: Tour, shortest: Option<real>, pos: nat,
                       antTours: seq<Tour>, newBest: Tour, newShortest: Option<real>, newPos: nat)
      requires Placed() && IsTable(initial) && Recorded(initial, history, draws, best, shortest, pos)
      requires |antTours| == numAnts && AllMeasurable(antTours)
      requires AllClosed(Generated(history) + antTours)
      requires IsFirstShortest(Generated(history) + antTours, newBest, newShortest, newPos)
      requires forall j :: 0 <= j < numAnts ==> IsAntTour(LevelsAfter(initial, history), antTours[j], draws(|history|, j))
      ensures var extended := history + [IterationRecord(|history| + 1, antTours)];
        && (forall k :: 0 <= k < |extended| ==> extended[k].iteration == k + 1 && |extended[k].tours| == numAnts)
        && (Generated(extended) == [] <==> numAnts == 0)
        && HistoryMeasurable(extended) && AllClosed(Generated(extended))
        && IsFirstShortest(Generated(extended), newBest, newShortest, newPos)
        && AntsRecorded(initial, extended, draws)
    {
      var record := IterationRecord(|history| + 1, antTours);
      RecordsStep(history, record);
      AntsRecordedStep(initial, history, record, draws);
    }

    /** The facts that make up `Recorded`, gathered into it. */
    lemma RecordedIntro(initial: seq<seq<real>>, history: seq<IterationRecord>,
                        draws: (nat, nat) -> nat -> real -> real,
                        best: Tour, shortest: Option<real>, pos: nat)
      requires Placed() && IsTable(initial)
      requires forall k :: 0 <= k < |history| ==> history[k].iteration == k + 1 && |history[k].tours| == numAnts
      requires Generated(history) == [] <==> history == [] || numAnts == 0
      requires HistoryMeasurable(history) && AllClosed(Generated(history))
      requires IsFirstShortest(Generated(history), best, shortest, pos)
      requires AntsRecorded(initial, history, draws)
      ensures Recorded(initial, history, draws, best, shortest, pos)
    {
    }

    /** Appending a record numbered after the history keeps the records numbered, sized and measurable. */
    lemma RecordsStep(history: seq<IterationRecord>, record: IterationRecord)
      requires IsEuclideanNorm(norm) && HistoryMeasurable(history) && AllMeasurable(record.tours)
      requires forall k :: 0 <= k < |history| ==> history[k].iteration == k + 1 && |history[k].tours| == numAnts
      requires record.iteration == |history| + 1 && |record.tours| == numAnts
      ensures HistoryMeasurable(history + [record])
      ensures forall k :: 0 <= k < |history| + 1 ==>
        (history + [record])[k].iteration == k + 1 && |(history + [record])[k].tours| == numAnts
      ensures Generated(history + [record]) == Generated(history) + record.tours
    {
      var extended := history + [record];
      forall k | 0 <= k < |extended|
        ensures extended[k].iteration == k + 1 && |extended[k].tours| == numAnts
        ensures AllMeasurable(extended[k].tours)
      {
        if k < |history| {
          assert extended[k] == history[k];
        }
      }
      assert extended[..|history|] == history;
    }

    /**
     * One iteration of the main loop, after the iterations of `history`:
     * every ant builds and measures a tour, the first shortest tour is kept,
     * the iteration's tours are recorded, and the pheromone table is updated
     * once with all of them.
     */
    method RunIteration(draws: (nat, nat) -> nat -> real -> real, history: seq<IterationRecord>,
                        ghost initial: seq<seq<real>>,
                        bestTour: Tour, shortestDistance: Option<real>, ghost bestPos: nat)
      returns (newHistory: seq<IterationRecord>, newBest: Tour, newShortest: Option<real>, ghost newPos: nat)
      requires 2 <= |cities|
      requires forall i, j, s :: IsScaledDraw(draws(i, j)(s))
      requires Progress(initial, history, draws, bestTour, shortestDistance, bestPos)
      modifies pheromoneMatrix
      ensures |newHistory| == |history| + 1 && newHistory[..|history|] == history
      ensures Progress(initial, newHistory, draws, newBest, newShortest, newPos)
    {
      ghost var seen := Generated(history);
      var antTours;
      antTours, newBest, newShortest, newPos := AntsOfIteration(draws, |history|, seen, bestTour, shortestDistance, bestPos);
      ClosedToursMeasurable(seen, antTours);
      LevelsMatch(initial, history);
      RecordedStep(initial, history, draws, bestTour, shortestDistance, bestPos, antTours, newBest, newShortest, newPos);
      var record := IterationRecord(|history| + 1, antTours);
      newHistory := history + [record];
      RecordedIntro(initial, newHistory, draws, newBest, newShortest, newPos);
      assert newHistory[..|history|] == history;
      PheromoneAfterStep(history, record);
      UpdatePheromoneMatrix(antTours);
    }

    /**
     * The colony's main loop: each iteration lets every ant build a tour,
     * keeps the first shortest tour seen so far, records the iteration's tours
     * and then updates the pheromone table once with all of them.
     */
    method Run(iterations: nat, draws: (nat, nat) -> nat -> real -> real)
      returns (bestTour: Tour, shortestDistance: Option<real>, allTours: seq<IterationRecord>)
      requires Valid() && 2 <= |cities|
      requires forall i, j, s :: IsScaledDraw(draws(i, j)(s))
      modifies pheromoneMatrix
      ensures Valid()
      ensures |allTours| == iterations
      ensures forall i :: 0 <= i < iterations ==>
        allTours[i].iteration == i + 1 && |allTours[i].tours| == numAnts
      ensures AllClosed(Generated(allTours))
      ensures shortestDistance.None? <==> iterations == 0 || numAnts == 0
      ensures exists pos :: IsFirstShortest(Generated(allTours), bestTour, shortestDistance, pos)
      ensures HistoryMeasurable(allTours)
      ensures forall a, b :: 0 <= a < |cities| && 0 <= b < |cities| ==>
        pheromoneMatrix[a, b] == PheromoneAfter(old(pheromoneMatrix[a, b]), allTours, a, b)
      ensures Placed() && IsTable(old(Levels())) && Levels() == LevelsAfter(old(Levels()), allTours)
      ensures AntsRecorded(old(Levels()), allTours, draws)
    {
      ValidLevels();
      LevelsCells();
      ghost var initial := Levels();
      bestTour := [];
      shortestDistance := None;
      allTours := [];
      ghost var bestPos: nat := 0;
      for i: nat := 0 to iterations
        invariant |allTours| == i
        invariant Progress(initial, allTours, draws, bestTour, shortestDistance, bestPos)
      {
        allTours, bestTour, shortestDistance, bestPos := RunIteration(draws, allTours, initial, bestTour, shortestDistance, bestPos);
      }
      LevelsMatch(initial, allTours);
    }
  }
}
