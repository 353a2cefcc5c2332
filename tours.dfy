/**
 * Tours as sequences of city indices, the permutation facts about them, and
 * the first-occurrence search the pheromone update relies on.
 */
module Tours {

  /** A tour: city indices in visiting order. */
  type Tour = seq<nat>

  ghost predicate Distinct(s: seq<nat>)
  {
    forall a, b :: 0 <= a < b < |s| ==> s[a] != s[b]
  }

  ghost predicate Below(s: seq<nat>, n: nat)
  {
    forall k :: 0 <= k < |s| ==> s[k] < n
  }

  /**
   * A closed tour over n cities anchored at `start`: n + 1 indices, first and
   * last both `start`, and the first n a permutation of 0 .. n-1.
   */
  ghost predicate IsClosedTour(t: seq<nat>, n: nat, start: nat)
  {
    |t| == n + 1 && t[0] == start && t[n] == start &&
    Below(t, n) && Distinct(t[..n]) &&
    (forall c :: 0 <= c < n ==> c in t[..n])
  }

  /** The visited flags of n cities after the cities of `prefix` were visited. */
  function VisitedFlags(prefix: seq<nat>, n: nat): (v: seq<bool>)
    ensures |v| == n
    ensures forall c :: 0 <= c < n ==> v[c] == (c in prefix)
  {
    if n == 0 then [] else VisitedFlags(prefix, n - 1) + [n - 1 in prefix]
  }

  function Elements(s: seq<nat>): set<nat>
  {
    set x | x in s
  }

  /** The indices below n, with as many elements as n. */
  function Range(n: nat): (r: set<nat>)
    ensures forall c: nat :: c in r <==> c < n
    ensures |r| == n
  {
    if n == 0 then {} else Range(n - 1) + {n - 1}
  }

  lemma {:induction false} ElementsSize(s: seq<nat>)
    requires Distinct(s)
    ensures |Elements(s)| == |s|
  {
    if s != [] {
      var init := s[..|s| - 1];
      assert Distinct(init);
      ElementsSize(init);
      assert s == init + [s[|s| - 1]];
      assert Elements(s) == Elements(init) + {s[|s| - 1]};
      assert s[|s| - 1] !in Elements(init);
    } else {
      assert Elements(s) == {};
    }
  }

  /**
   * Pigeonhole: distinct indices below n number at most n, and they are
   * exactly n when every index below n occurs among them.
   */
  lemma Coverage(s: seq<nat>, n: nat)
    requires Distinct(s) && Below(s, n)
    ensures |s| <= n
    ensures |s| == n <==> forall c :: 0 <= c < n ==> c in s
  {
    var e, r := Elements(s), Range(n);
    ElementsSize(s);
    assert e <= r;
    assert r == e + (r - e);
    if forall c :: 0 <= c < n ==> c in s {
      assert r <= e;
    }
    if |s| == n {
      assert |r - e| == 0;
      assert r - e == {};
      forall c | 0 <= c < n
        ensures c in s
      {
        assert c in r;
      }
    }
  }

  /** Appending an unvisited city keeps the cities distinct and in range, and sets that city's flag. */
  lemma Extend(tour: seq<nat>, n: nat, c: nat)
    requires Distinct(tour) && Below(tour, n) && c < n && c !in tour
    ensures Distinct(tour + [c]) && Below(tour + [c], n)
    ensures VisitedFlags(tour + [c], n) == VisitedFlags(tour, n)[c := true]
  {
  }

  /** While fewer than n distinct cities are visited, some city below n is not. */
  lemma SomeUnvisited(tour: seq<nat>, n: nat)
    requires Distinct(tour) && Below(tour, n) && |tour| < n
    ensures exists u :: 0 <= u < n && !VisitedFlags(tour, n)[u]
  {
    Coverage(tour, n);
    var u :| 0 <= u < n && u !in tour;
    assert !VisitedFlags(tour, n)[u];
  }

  /** n distinct cities from `start`, followed by `start` again, form a closed tour. */
  lemma Close(tour: seq<nat>, n: nat, start: nat)
    requires Distinct(tour) && Below(tour, n) && |tour| == n && 0 < n && tour[0] == start
    ensures IsClosedTour(tour + [start], n, start)
  {
    Coverage(tour, n);
    assert (tour + [start])[..n] == tour;
  }

  /**
   * `Array.prototype.indexOf`: the position of the first occurrence of `x`
   * in `s`, or -1 when it does not occur.
   */
  function IndexOf(s: seq<nat>, x: nat): (r: int)
    ensures -1 <= r < |s|
    ensures r == -1 <==> x !in s
    ensures r != -1 ==> s[r] == x && x !in s[..r]
  {
    if s == [] then -1
    else if s[0] == x then 0
    else
      var k := IndexOf(s[1..], x);
      assert s[1..][..(if k == -1 then 0 else k)] == s[1..(if k == -1 then 1 else k + 1)];
      if k == -1 then -1 else k + 1
  }

  /**
   * The test of the pheromone update: `j` is the element right after the
   * first occurrence of `i` in the tour (an occurrence at the end has no
   * successor).
   */
  predicate Follows(t: seq<nat>, i: nat, j: nat)
  {
    var index := IndexOf(t, i);
    index != -1 && index + 1 < |t| && t[index + 1] == j
  }

  /**
   * On a closed tour the first-occurrence test credits exactly the tour's n
   * edges: (i, j) passes the test iff some step k < n goes from i to j.
   */
  lemma FollowsOnClosedTour(t: seq<nat>, n: nat, start: nat, i: nat, j: nat)
    requires IsClosedTour(t, n, start)
    ensures Follows(t, i, j) <==> exists k :: 0 <= k < n && t[k] == i && t[k + 1] == j
  {
    var index := IndexOf(t, i);
    if Follows(t, i, j) {
      assert index < n;
    }
    if exists k :: 0 <= k < n && t[k] == i && t[k + 1] == j {
      var k :| 0 <= k < n && t[k] == i && t[k + 1] == j;
      assert i in t;
      assert index == k;
    }
  }
}
