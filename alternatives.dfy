/**
 * What MetroGraph.findAlternativeRoutes computes around its depth-first search
 * (MetroRouteOptimization.java): which routes the search collects, the deviation test
 * `distance <= shortestDistance * MAX_ROUTE_DEVIATION` with MAX_ROUTE_DEVIATION = 1.5,
 * the sort by distance and the removal of the shortest route.
 */
module Alternatives {
  import opened MetroPaths

  /** `distance <= shortest * 1.5`, stated exactly on integers. */
  predicate WithinDeviation(distance: int, shortest: int)
  {
    2 * distance <= 3 * shortest
  }

  /**
   * The routes a search entered at `current` with `prefix` already on the path collects:
   * `prefix` followed by a route from `current` to `dest` that repeats no station and
   * whose distance is within the deviation of `limit`.
   */
  ghost predicate Found(adj: Adjacency, prefix: seq<int>, current: int, dest: int, limit: int, r: seq<int>)
  {
    |r| > |prefix| && r[..|prefix|] == prefix && Connects(adj, r[|prefix|..], current, dest) &&
    Distinct(r) && InRange(adj, r) && WithinDeviation(PathDistance(adj, r), limit)
  }

  /** At the destination the search collects only the path itself, and only if it is short enough. */
  lemma FoundAtDestination(adj: Adjacency, prefix: seq<int>, dest: int, limit: int, r: seq<int>)
    requires InRange(adj, prefix) && Distinct(prefix) && 0 <= dest < |adj| && dest !in prefix
    ensures InRange(adj, prefix + [dest])
    ensures Found(adj, prefix, dest, dest, limit, r) <==>
              r == prefix + [dest] && WithinDeviation(PathDistance(adj, prefix + [dest]), limit)
  {
    var p := prefix + [dest];
    if Found(adj, prefix, dest, dest, limit, r) {
      var s := r[|prefix|..];
      assert r == r[..|prefix|] + s;
    }
    if r == p && WithinDeviation(PathDistance(adj, p), limit) {
      assert r[..|prefix|] == prefix && r[|prefix|..] == [dest];
      forall i, j | 0 <= i < j < |r|
        ensures r[i] != r[j]
      {
        if j == |prefix| {
          assert r[i] in prefix;
        }
      }
    }
  }

  /**
   * Away from the destination, the routes collected from `current` are exactly those
   * collected from the neighbours of `current` that are not yet on the path.
   */
  lemma FoundStep(adj: Adjacency, prefix: seq<int>, current: int, dest: int, limit: int, r: seq<int>)
    requires InRange(adj, prefix) && Distinct(prefix) && 0 <= current < |adj| && current !in prefix
    requires current != dest
    ensures Found(adj, prefix, current, dest, limit, r) <==>
              exists j :: 0 <= j < |adj[current]| && adj[current][j].to !in prefix + [current] &&
                          Found(adj, prefix + [current], adj[current][j].to, dest, limit, r)
  {
    var p := prefix + [current];
    if Found(adj, prefix, current, dest, limit, r) {
      var s := r[|prefix|..];
      assert |s| >= 2;
      var w := s[1];
      assert Adjacent(adj, current, w);
      var e := FirstEdgeTo(adj[current], w).value;
      var j :| 0 <= j < |adj[current]| && adj[current][j] == e;
      assert r[..|p|] == p;
      assert r[|p|..] == s[1..];
      assert IsRoute(adj, s[1..]) by {
        forall i | 0 <= i < |s[1..]| - 1
          ensures Adjacent(adj, s[1..][i], s[1..][i + 1])
        {
          assert s[1..][i] == s[i + 1] && s[1..][i + 1] == s[i + 2];
        }
      }
      assert w !in p by {
        assert r[|prefix| + 1] == w && r[|prefix|] == current;
        forall i | 0 <= i < |prefix|
          ensures prefix[i] != w
        {
          assert prefix[i] == r[i];
        }
      }
      assert Found(adj, p, adj[current][j].to, dest, limit, r);
    }
    if j :| 0 <= j < |adj[current]| && adj[current][j].to !in p && Found(adj, p, adj[current][j].to, dest, limit, r) {
      var w := adj[current][j].to;
      var t := r[|p|..];
      assert adj[current][j] in adj[current];
      assert Adjacent(adj, current, w);
      assert r[..|p|] == p;
      assert r[|prefix|..] == [current] + t;
      assert r[..|prefix|] == prefix;
      IsRoutePrepend(adj, current, t);
    }
  }

  /** Every route in the list is over stations of the graph. */
  ghost predicate AllInRange(adj: Adjacency, rs: seq<seq<int>>)
  {
    forall r :: r in rs ==> InRange(adj, r)
  }

  /** The routes come in non-decreasing order of distance. */
  ghost predicate SortedByDistance(adj: Adjacency, rs: seq<seq<int>>)
    requires AllInRange(adj, rs)
  {
    forall i, j :: 0 <= i < j < |rs| ==> PathDistance(adj, rs[i]) <= PathDistance(adj, rs[j])
  }

  /** Puts `r` in front of the first route that is farther, keeping equal distances in their order. */
  function InsertByDistance(adj: Adjacency, r: seq<int>, rs: seq<seq<int>>): (result: seq<seq<int>>)
    requires InRange(adj, r) && AllInRange(adj, rs)
    ensures AllInRange(adj, result) && multiset(result) == multiset(rs) + multiset{r}
  {
    if rs == [] || PathDistance(adj, r) <= PathDistance(adj, rs[0]) then
      [r] + rs
    else
      assert rs == [rs[0]] + rs[1..];
      [rs[0]] + InsertByDistance(adj, r, rs[1..])
  }

  /** Inserting into a sorted list keeps it sorted. */
  lemma {:induction false} InsertKeepsSorted(adj: Adjacency, r: seq<int>, rs: seq<seq<int>>)
    requires InRange(adj, r) && AllInRange(adj, rs) && SortedByDistance(adj, rs)
    ensures SortedByDistance(adj, InsertByDistance(adj, r, rs))
  {
    if rs != [] && PathDistance(adj, r) > PathDistance(adj, rs[0]) {
      var tail := InsertByDistance(adj, r, rs[1..]);
      InsertKeepsSorted(adj, r, rs[1..]);
      forall k | 0 <= k < |tail|
        ensures PathDistance(adj, rs[0]) <= PathDistance(adj, tail[k])
      {
        assert tail[k] in multiset(tail);
        if tail[k] != r {
          assert tail[k] in multiset(rs[1..]);
          var m :| 0 <= m < |rs[1..]| && rs[1..][m] == tail[k];
          assert rs[m + 1] == tail[k];
        }
      }
    }
  }

  /**
   * `sortedRoutes.sort((a, b) -> calculatePathDistance(a) - calculatePathDistance(b))`:
   * a stable sort by distance, here an insertion sort.
   */
  function SortByDistance(adj: Adjacency, rs: seq<seq<int>>): (result: seq<seq<int>>)
    requires AllInRange(adj, rs)
    ensures AllInRange(adj, result) && multiset(result) == multiset(rs)
  {
    if rs == [] then []
    else
      assert rs == [rs[0]] + rs[1..];
      InsertByDistance(adj, rs[0], SortByDistance(adj, rs[1..]))
  }

  /** The sort's result is in order of distance. */
  lemma {:induction false} SortIsSorted(adj: Adjacency, rs: seq<seq<int>>)
    requires AllInRange(adj, rs)
    ensures SortedByDistance(adj, SortByDistance(adj, rs))
  {
    if rs != [] {
      SortIsSorted(adj, rs[1..]);
      InsertKeepsSorted(adj, rs[0], SortByDistance(adj, rs[1..]));
    }
  }

  /** `sortedRoutes.removeIf(route -> route.equals(shortestPath))`. */
  function Without(rs: seq<seq<int>>, x: seq<int>): (result: seq<seq<int>>)
    ensures forall r :: r in result <==> r in rs && r != x
    ensures |result| <= |rs|
  {
    if rs == [] then []
    else if rs[0] == x then Without(rs[1..], x)
    else [rs[0]] + Without(rs[1..], x)
  }

  /** Removing a route keeps the others in their order, so a sorted list stays sorted. */
  lemma {:induction false} WithoutKeepsSorted(adj: Adjacency, rs: seq<seq<int>>, x: seq<int>)
    requires AllInRange(adj, rs) && SortedByDistance(adj, rs)
    ensures AllInRange(adj, Without(rs, x)) && SortedByDistance(adj, Without(rs, x))
  {
    if rs != [] {
      var tail := Without(rs[1..], x);
      WithoutKeepsSorted(adj, rs[1..], x);
      if rs[0] != x {
        forall k | 0 <= k < |tail|
          ensures PathDistance(adj, rs[0]) <= PathDistance(adj, tail[k])
        {
          assert tail[k] in rs[1..];
          var m :| 0 <= m < |rs[1..]| && rs[1..][m] == tail[k];
          assert rs[m + 1] == tail[k];
        }
      }
    }
  }

  /** Removing a route from a list without repeats leaves a list without repeats. */
  lemma {:induction false} WithoutKeepsDistinct(rs: seq<seq<int>>, x: seq<int>)
    requires Distinct(rs)
    ensures Distinct(Without(rs, x))
  {
    if rs != [] {
      WithoutKeepsDistinct(rs[1..], x);
      if rs[0] != x {
        var tail := Without(rs[1..], x);
        assert rs[0] !in rs[1..];
        assert rs[0] !in tail;
      }
    }
  }

  /** A sequence without repeats holds every element at most once. */
  lemma {:induction false} DistinctCounts<T>(s: seq<T>, x: T)
    requires Distinct(s)
    ensures multiset(s)[x] <= 1
  {
    if s != [] {
      assert s == [s[0]] + s[1..];
      assert Distinct(s[1..]) by {
        forall i, j | 0 <= i < j < |s[1..]|
          ensures s[1..][i] != s[1..][j]
        {
          assert s[1..][i] == s[i + 1] && s[1..][j] == s[j + 1];
        }
      }
      DistinctCounts(s[1..], x);
      if s[0] == x {
        assert x !in s[1..] by {
          forall j | 0 <= j < |s[1..]|
            ensures s[1..][j] != x
          {
            assert s[1..][j] == s[j + 1];
          }
        }
      }
    }
  }

  /** Sorting a list without repeats leaves a list without repeats. */
  lemma SortKeepsDistinct(adj: Adjacency, rs: seq<seq<int>>)
    requires AllInRange(adj, rs) && Distinct(rs)
    ensures Distinct(SortByDistance(adj, rs))
  {
    var s := SortByDistance(adj, rs);
    forall i, j | 0 <= i < j < |s|
      ensures s[i] != s[j]
    {
      if s[i] == s[j] {
        assert s == s[..j] + [s[j]] + s[j + 1..];
        assert s[i] in s[..j];
        assert multiset(s)[s[j]] >= 2;
        DistinctCounts(rs, s[j]);
        assert false;
      }
    }
  }

  /**
   * The display loop's test `distance <= shortestDistance * MAX_ROUTE_DEVIATION`: the
   * routes of `rs` within the deviation of `limit`, in their order.
   */
  function WithinLimit(adj: Adjacency, rs: seq<seq<int>>, limit: int): (result: seq<seq<int>>)
    requires AllInRange(adj, rs)
    ensures |result| <= |rs|
    ensures forall r :: r in result <==> r in rs && WithinDeviation(PathDistance(adj, r), limit)
    decreases |rs|
  {
    if rs == [] then []
    else
      var last := rs[|rs| - 1];
      assert rs == rs[..|rs| - 1] + [last];
      WithinLimit(adj, rs[..|rs| - 1], limit) + if WithinDeviation(PathDistance(adj, last), limit) then [last] else []
  }

  /** What the test keeps of a prefix is a prefix of what it keeps of the whole list. */
  lemma {:induction false} WithinLimitPrefix(adj: Adjacency, rs: seq<seq<int>>, limit: int, i: nat)
    requires AllInRange(adj, rs) && i <= |rs|
    ensures |WithinLimit(adj, rs[..i], limit)| <= |WithinLimit(adj, rs, limit)|
    ensures WithinLimit(adj, rs[..i], limit) == WithinLimit(adj, rs, limit)[..|WithinLimit(adj, rs[..i], limit)|]
    decreases |rs|
  {
    if i < |rs| {
      var init := rs[..|rs| - 1];
      assert init[..i] == rs[..i];
      WithinLimitPrefix(adj, init, limit, i);
    } else {
      assert rs[..i] == rs;
    }
  }

  /** When every route passes the test, the test keeps the whole list. */
  lemma {:induction false} WithinLimitKeepsAll(adj: Adjacency, rs: seq<seq<int>>, limit: int)
    requires AllInRange(adj, rs)
    requires forall r :: r in rs ==> WithinDeviation(PathDistance(adj, r), limit)
    ensures WithinLimit(adj, rs, limit) == rs
    decreases |rs|
  {
    if rs != [] {
      var init := rs[..|rs| - 1];
      forall r | r in init
        ensures WithinDeviation(PathDistance(adj, r), limit)
      {
        var i :| 0 <= i < |init| && init[i] == r;
        assert rs[i] == r;
      }
      WithinLimitKeepsAll(adj, init, limit);
      assert rs == init + [rs[|rs| - 1]];
    }
  }

  /**
   * In a list sorted by distance, a route left out of the first `k` means all `k` places
   * are taken, each by a route no longer than it.
   */
  lemma FirstAreNearest(adj: Adjacency, rs: seq<seq<int>>, r: seq<int>, k: nat)
    requires AllInRange(adj, rs) && SortedByDistance(adj, rs) && r in rs && k <= |rs|
    ensures r !in rs[..k] ==> forall a :: a in rs[..k] ==> PathDistance(adj, a) <= PathDistance(adj, r)
  {
    var j :| 0 <= j < |rs| && rs[j] == r;
    if r !in rs[..k] {
      assert k <= j by {
        if j < k {
          assert false;
        }
      }
      forall a | a in rs[..k]
        ensures PathDistance(adj, a) <= PathDistance(adj, r)
      {
        var m :| 0 <= m < k && rs[..k][m] == a;
        assert rs[m] == a;
      }
    }
  }
}
