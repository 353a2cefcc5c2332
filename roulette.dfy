/**
 * Roulette-wheel selection over the unvisited cities: the candidate list the
 * ant builds, the running sums of its weights, and what it means for a city
 * to be the one the wheel stops at.
 */
module Roulette {

  /** One entry of the list `selectNextCity` builds: a city and its weight. */
  datatype Candidate = Candidate(cityIndex: nat, probability: real)

  /**
   * The candidates among cities 0 .. m-1: the unvisited ones, in increasing
   * index order, each with its weight from `w`.
   */
  function Candidates(visited: seq<bool>, w: seq<real>, m: nat): (cs: seq<Candidate>)
    requires m <= |visited| && |w| == |visited|
    ensures |cs| <= m
  {
    if m == 0 then []
    else Candidates(visited, w, m - 1) + (if visited[m - 1] then [] else [Candidate(m - 1, w[m - 1])])
  }

  /** Every candidate is an unvisited city below m carrying its own weight. */
  lemma {:induction false} CandidatesSound(visited: seq<bool>, w: seq<real>, m: nat)
    requires m <= |visited| && |w| == |visited|
    ensures forall k :: 0 <= k < |Candidates(visited, w, m)| ==>
      var c := Candidates(visited, w, m)[k];
      c.cityIndex < m && !visited[c.cityIndex] && c.probability == w[c.cityIndex]
  {
    if m > 0 {
      CandidatesSound(visited, w, m - 1);
    }
  }

  /** The sum of the candidates' weights, accumulated left to right like the source's `reduce`. */
  function TotalProbability(cs: seq<Candidate>): real
  {
    if cs == [] then 0.0 else TotalProbability(cs[..|cs| - 1]) + cs[|cs| - 1].probability
  }

  /** The weight the wheel has accumulated once it has passed every candidate below m. */
  function CumulativeWeight(visited: seq<bool>, w: seq<real>, m: nat): real
    requires m <= |visited| && |w| == |visited|
  {
    TotalProbability(Candidates(visited, w, m))
  }

  /**
   * City c is where the wheel stops for the draw `random`: an unvisited city
   * whose running sum reaches the draw, while no unvisited city before it does.
   */
  ghost predicate IsRouletteChoice(visited: seq<bool>, w: seq<real>, random: real, c: nat)
    requires |w| == |visited|
  {
    c < |visited| && !visited[c] &&
    random <= CumulativeWeight(visited, w, c + 1) &&
    forall j :: 0 <= j < c && !visited[j] ==> CumulativeWeight(visited, w, j + 1) < random
  }

  /** Scanning fewer cities gives a prefix of the candidate list. */
  lemma {:induction false} CandidatesPrefix(visited: seq<bool>, w: seq<real>, j: nat, m: nat)
    requires j <= m <= |visited| && |w| == |visited|
    ensures |Candidates(visited, w, j)| <= |Candidates(visited, w, m)|
    ensures Candidates(visited, w, m)[..|Candidates(visited, w, j)|] == Candidates(visited, w, j)
  {
    if j < m {
      CandidatesPrefix(visited, w, j, m - 1);
      var shorter := Candidates(visited, w, m - 1);
      assert Candidates(visited, w, m)[..|shorter|] == shorter;
    }
  }

  /**
   * The candidate at position k of the list is some city c, and the list up
   * to and including it is exactly the candidate list of cities 0 .. c.
   */
  lemma {:induction false} CandidateOrigin(visited: seq<bool>, w: seq<real>, m: nat, k: nat)
    requires m <= |visited| && |w| == |visited|
    requires k < |Candidates(visited, w, m)|
    ensures var c := Candidates(visited, w, m)[k].cityIndex;
      c < m && |Candidates(visited, w, c)| == k &&
      Candidates(visited, w, m)[..k + 1] == Candidates(visited, w, c + 1)
  {
    var shorter := Candidates(visited, w, m - 1);
    var cs := Candidates(visited, w, m);
    CandidatesSound(visited, w, m);
    if k < |shorter| {
      CandidateOrigin(visited, w, m - 1, k);
      assert cs[k] == shorter[k];
      assert cs[..k + 1] == shorter[..k + 1];
    } else {
      assert cs == shorter + [Candidate(m - 1, w[m - 1])];
      assert cs[..k + 1] == cs;
    }
  }

  /**
   * An unvisited city j below m sits at position |Candidates(.., j)| of the
   * candidate list of cities below m, which up to it is the list of cities 0 .. j.
   */
  lemma CandidatePosition(visited: seq<bool>, w: seq<real>, j: nat, m: nat)
    requires j < m <= |visited| && |w| == |visited| && !visited[j]
    ensures |Candidates(visited, w, j)| < |Candidates(visited, w, m)|
    ensures Candidates(visited, w, m)[..|Candidates(visited, w, j)| + 1] == Candidates(visited, w, j + 1)
  {
    assert |Candidates(visited, w, j + 1)| == |Candidates(visited, w, j)| + 1;
    CandidatesPrefix(visited, w, j + 1, m);
  }

  /** While some city is unvisited the candidate list is not empty. */
  lemma SomeCandidate(visited: seq<bool>, w: seq<real>, u: nat)
    requires |w| == |visited| && u < |visited| && !visited[u]
    ensures 0 < |Candidates(visited, w, |visited|)|
  {
    CandidatePosition(visited, w, u, |visited|);
  }

  /**
   * While some city is unvisited and no weight is negative, the wheel has
   * candidates to spin over and none of them has a negative weight.
   */
  lemma WheelReady(visited: seq<bool>, w: seq<real>)
    requires |w| == |visited| && exists u :: 0 <= u < |visited| && !visited[u]
    requires forall j :: 0 <= j < |w| ==> 0.0 <= w[j]
    ensures 0 < |Candidates(visited, w, |visited|)|
    ensures forall k :: 0 <= k < |Candidates(visited, w, |visited|)| ==>
      0.0 <= Candidates(visited, w, |visited|)[k].probability
  {
    var u :| 0 <= u < |visited| && !visited[u];
    SomeCandidate(visited, w, u);
    CandidatesSound(visited, w, |visited|);
  }

  /** Non-negative weights have a non-negative sum. */
  lemma {:induction false} TotalNonNegative(cs: seq<Candidate>)
    requires forall k :: 0 <= k < |cs| ==> 0.0 <= cs[k].probability
    ensures 0.0 <= TotalProbability(cs)
  {
    if cs != [] {
      TotalNonNegative(cs[..|cs| - 1]);
    }
  }

  /**
   * `scale(t)` stands for `Math.random() * t`: a draw in [0, t), and 0 when
   * t is 0.
   */
  ghost predicate IsScaledDraw(scale: real -> real)
  {
    forall t :: 0.0 <= t ==> 0.0 <= scale(t) <= t && (0.0 < t ==> scale(t) < t)
  }

  /**
   * The scan that stops at the first candidate whose running sum reaches the
   * draw stops at the roulette choice.
   */
  lemma FirstCrossing(visited: seq<bool>, w: seq<real>, cs: seq<Candidate>, random: real, k: nat)
    requires |w| == |visited| && cs == Candidates(visited, w, |visited|)
    requires IsFirstCrossing(cs, random, k)
    ensures IsRouletteChoice(visited, w, random, cs[k].cityIndex)
  {
    var n := |visited|;
    var c := cs[k].cityIndex;
    CandidatesSound(visited, w, n);
    CandidateOrigin(visited, w, n, k);
    assert random <= CumulativeWeight(visited, w, c + 1);
    forall j | 0 <= j < c && !visited[j]
      ensures CumulativeWeight(visited, w, j + 1) < random
    {
      var p := |Candidates(visited, w, j)|;
      CandidatePosition(visited, w, j, n);
      CandidatePosition(visited, w, j, c);
      assert TotalProbability(cs[..p + 1]) < random;
    }
  }

  /** At most one city is the roulette choice for a given draw. */
  lemma RouletteChoiceUnique(visited: seq<bool>, w: seq<real>, random: real, c1: nat, c2: nat)
    requires |w| == |visited|
    requires IsRouletteChoice(visited, w, random, c1) && IsRouletteChoice(visited, w, random, c2)
    ensures c1 == c2
  {
  }

  /**
   * Position k is where a scan of the running sums of `cs` first reaches
   * `random`: the sum up to and including k reaches it, every shorter sum
   * stays below it.
   */
  ghost predicate IsFirstCrossing(cs: seq<Candidate>, random: real, k: nat)
  {
    k < |cs| && random <= TotalProbability(cs[..k + 1]) &&
    forall m :: 0 < m <= k ==> TotalProbability(cs[..m]) < random
  }

  /**
   * The wheel, the second half of `selectNextCity`: draws a value in
   * [0, total weight) and scans the candidates for it.
   */
  method SpinWheel(probabilities: seq<Candidate>, scale: real -> real) returns (next: nat, ghost position: nat)
    requires 0 < |probabilities|
    requires forall k :: 0 <= k < |probabilities| ==> 0.0 <= probabilities[k].probability
    requires IsScaledDraw(scale)
    ensures IsFirstCrossing(probabilities, scale(TotalProbability(probabilities)), position)
    ensures next == probabilities[position].cityIndex
    ensures exists p: nat ::
      IsFirstCrossing(probabilities, scale(TotalProbability(probabilities)), p) && next == probabilities[p].cityIndex
  {
    var sum := TotalProbability(probabilities);
    var random := scale(sum);
    TotalNonNegative(probabilities);
    next, position := Scan(probabilities, random);
  }

  /**
   * Walks the candidates adding up their weights and stops at the first one
   * whose running sum reaches `random`.
   */
  method Scan(probabilities: seq<Candidate>, random: real) returns (next: nat, ghost position: nat)
    requires 0 < |probabilities| && random <= TotalProbability(probabilities)
    ensures IsFirstCrossing(probabilities, random, position)
    ensures next == probabilities[position].cityIndex
    ensures exists p: nat :: IsFirstCrossing(probabilities, random, p) && next == probabilities[p].cityIndex
  {
    assert probabilities[..|probabilities|] == probabilities;
    var cumulativeProbability := 0.0;
    for k := 0 to |probabilities|
      invariant cumulativeProbability == TotalProbability(probabilities[..k])
      invariant forall m :: 0 < m <= k ==> TotalProbability(probabilities[..m]) < random
    {
      cumulativeProbability := cumulativeProbability + probabilities[k].probability;
      assert probabilities[..k + 1][..k] == probabilities[..k];
      if random <= cumulativeProbability {
        return probabilities[k].cityIndex, k;
      }
    }
    assert false;
  }

  /**
   * When every weight is zero the draw is zero, and the wheel stops at the
   * first unvisited city.
   */
  lemma ZeroWeightsPickFirstUnvisited(visited: seq<bool>, w: seq<real>, c: nat)
    requires |w| == |visited|
    requires forall j :: 0 <= j < |w| ==> 0.0 <= w[j]
    requires CumulativeWeight(visited, w, |visited|) == 0.0
    requires IsRouletteChoice(visited, w, 0.0, c)
    ensures forall j :: 0 <= j < c ==> visited[j]
  {
    forall j | 0 <= j < c
      ensures visited[j]
    {
      if !visited[j] {
        CumulativeNonNegative(visited, w, j + 1);
      }
    }
  }

  /** With non-negative weights every running sum is non-negative. */
  lemma CumulativeNonNegative(visited: seq<bool>, w: seq<real>, m: nat)
    requires m <= |visited| && |w| == |visited|
    requires forall j :: 0 <= j < |w| ==> 0.0 <= w[j]
    ensures 0.0 <= CumulativeWeight(visited, w, m)
  {
    CandidatesSound(visited, w, m);
    TotalNonNegative(Candidates(visited, w, m));
  }
}
