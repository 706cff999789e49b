/**
 * Routes over the adjacency lists of MetroGraph (MetroRouteOptimization.java): what a
 * route is, what it costs in each search mode, and the facts about routes that the
 * shortest-path, enumeration and fare code rely on.
 */
module MetroPaths {
  import opened Wrappers

  /** MetroGraph.Edge: the far end of an adjacency entry and its weight. */
  datatype Edge = Edge(to: int, weight: int)

  /** `adjList`: the outgoing edges of every station, indexed by station id. */
  type Adjacency = seq<seq<Edge>>

  /** Every edge leads to a station of the graph and has a positive weight. */
  ghost predicate WellFormed(adj: Adjacency)
  {
    forall u, e :: 0 <= u < |adj| && e in adj[u] ==> 0 <= e.to < |adj| && e.weight > 0
  }

  /** Every edge u -> v with weight w is matched by an edge v -> u with weight w. */
  ghost predicate Symmetric(adj: Adjacency)
  {
    forall u, e :: 0 <= u < |adj| && e in adj[u] ==> 0 <= e.to < |adj| && Edge(u, e.weight) in adj[e.to]
  }

  /** No list holds two edges to the same station. */
  ghost predicate NoParallel(adj: Adjacency)
  {
    forall u, i, j :: 0 <= u < |adj| && 0 <= i < j < |adj[u]| ==> adj[u][i].to != adj[u][j].to
  }

  /** The first edge of `edges` that leads to `v`, as the inner loop of calculatePathDistance finds it. */
  function FirstEdgeTo(edges: seq<Edge>, v: int): (r: Option<Edge>)
    ensures r.Some? ==> r.value in edges && r.value.to == v
    ensures r.None? <==> forall e :: e in edges ==> e.to != v
  {
    if edges == [] then None
    else if edges[0].to == v then Some(edges[0])
    else FirstEdgeTo(edges[1..], v)
  }

  /** In a list without two edges to one station, the edge to `v` is the one found. */
  lemma {:induction false} FirstEdgeIsUnique(edges: seq<Edge>, e: Edge)
    requires forall i, j :: 0 <= i < j < |edges| ==> edges[i].to != edges[j].to
    requires e in edges
    ensures FirstEdgeTo(edges, e.to) == Some(e)
  {
    if edges[0] != e {
      assert edges[0].to != e.to by {
        var k :| 0 <= k < |edges| && edges[k] == e;
        assert 0 < k;
      }
      assert e in edges[1..];
      FirstEdgeIsUnique(edges[1..], e);
    }
  }

  /** The weight an edge costs in the search: its own weight, or 1 per hop when minimising transfers. */
  function EdgeCost(e: Edge, timeOptimized: bool): int
  {
    if timeOptimized then e.weight else 1
  }

  predicate InRange(adj: Adjacency, p: seq<int>)
  {
    forall i :: 0 <= i < |p| ==> 0 <= p[i] < |adj|
  }

  /** `adjList.get(u)` holds an edge to `v`. */
  predicate Adjacent(adj: Adjacency, u: int, v: int)
    requires 0 <= u < |adj|
  {
    FirstEdgeTo(adj[u], v).Some?
  }

  /** A route: a non-empty sequence of stations, each adjacent to the next. */
  predicate IsRoute(adj: Adjacency, p: seq<int>)
  {
    |p| >= 1 && InRange(adj, p) && forall i :: 0 <= i < |p| - 1 ==> Adjacent(adj, p[i], p[i + 1])
  }

  /** A route from `s` to `t`. */
  predicate Connects(adj: Adjacency, p: seq<int>, s: int, t: int)
  {
    IsRoute(adj, p) && p[0] == s && p[|p| - 1] == t
  }

  /** A sequence without a repeated element: a route without a repeated station. */
  predicate Distinct<T(==)>(p: seq<T>)
  {
    forall i, j :: 0 <= i < j < |p| ==> p[i] != p[j]
  }

  /** The cost of one step: the first matching edge's cost, or 0 when the stations are not adjacent. */
  function StepCost(adj: Adjacency, u: int, v: int, timeOptimized: bool): int
    requires 0 <= u < |adj|
  {
    match FirstEdgeTo(adj[u], v)
    case None => 0
    case Some(e) => EdgeCost(e, timeOptimized)
  }

  /** The cost of a route, step by step: its distance, or its number of hops. */
  function RouteCost(adj: Adjacency, p: seq<int>, timeOptimized: bool): int
    requires InRange(adj, p)
    decreases |p|
  {
    if |p| <= 1 then 0
    else RouteCost(adj, p[..|p| - 1], timeOptimized) + StepCost(adj, p[|p| - 2], p[|p| - 1], timeOptimized)
  }

  /** calculatePathDistance: the weight of the first matching edge of every step, summed. */
  function PathDistance(adj: Adjacency, p: seq<int>): int
    requires InRange(adj, p)
  {
    RouteCost(adj, p, true)
  }

  /** A route from `s` to `t` that costs no more than any other route from `s` to `t`. */
  ghost predicate Shortest(adj: Adjacency, p: seq<int>, s: int, t: int, timeOptimized: bool)
  {
    Connects(adj, p, s, t) &&
    forall q :: Connects(adj, q, s, t) ==> RouteCost(adj, p, timeOptimized) <= RouteCost(adj, q, timeOptimized)
  }

  /**
   * The edge a search relaxes and the edge calculatePathDistance looks up cost the same:
   * always when counting hops, and when no list holds two edges to one station.
   */
  ghost predicate CostsAgree(adj: Adjacency, timeOptimized: bool)
  {
    !timeOptimized || NoParallel(adj)
  }

  /** The cost of one step is the cost of any edge for it, when costs agree. */
  lemma StepCostOfEdge(adj: Adjacency, u: int, e: Edge, timeOptimized: bool)
    requires 0 <= u < |adj| && e in adj[u] && CostsAgree(adj, timeOptimized)
    ensures StepCost(adj, u, e.to, timeOptimized) == EdgeCost(e, timeOptimized)
  {
    if timeOptimized {
      FirstEdgeIsUnique(adj[u], e);
    }
  }

  /** A non-empty prefix of a route is a route. */
  lemma PrefixIsRoute(adj: Adjacency, p: seq<int>, j: int)
    requires IsRoute(adj, p) && 1 <= j <= |p|
    ensures IsRoute(adj, p[..j])
  {
    forall i | 0 <= i < j - 1
      ensures Adjacent(adj, p[..j][i], p[..j][i + 1])
    {
      assert p[..j][i] == p[i] && p[..j][i + 1] == p[i + 1];
    }
  }

  /** Costs of routes are never negative, and every step of a route costs at least 1. */
  lemma {:induction false} RouteCostBounds(adj: Adjacency, p: seq<int>, timeOptimized: bool)
    requires WellFormed(adj) && IsRoute(adj, p)
    ensures RouteCost(adj, p, timeOptimized) >= |p| - 1
  {
    if |p| > 1 {
      RouteCostBounds(adj, p[..|p| - 1], timeOptimized);
    }
  }

  /** No sequence of stations costs less than nothing: every step costs 0 or a positive weight. */
  lemma {:induction false} RouteCostNonNegative(adj: Adjacency, p: seq<int>, timeOptimized: bool)
    requires WellFormed(adj) && InRange(adj, p)
    ensures RouteCost(adj, p, timeOptimized) >= 0
    decreases |p|
  {
    if |p| > 1 {
      RouteCostNonNegative(adj, p[..|p| - 1], timeOptimized);
    }
  }

  /** Counting every hop as 1, a route costs its number of edges. */
  lemma {:induction false} HopCost(adj: Adjacency, p: seq<int>)
    requires IsRoute(adj, p)
    ensures RouteCost(adj, p, false) == |p| - 1
  {
    if |p| > 1 {
      HopCost(adj, p[..|p| - 1]);
    }
  }

  /** Putting a station adjacent to the head in front adds exactly that step's cost. */
  lemma {:induction false} RouteCostPrepend(adj: Adjacency, a: int, p: seq<int>, timeOptimized: bool)
    requires 0 <= a < |adj| && InRange(adj, p) && |p| >= 1
    ensures InRange(adj, [a] + p)
    ensures RouteCost(adj, [a] + p, timeOptimized) == StepCost(adj, a, p[0], timeOptimized) + RouteCost(adj, p, timeOptimized)
    decreases |p|
  {
    var ap := [a] + p;
    if |p| > 1 {
      assert ap[..|ap| - 1] == [a] + p[..|p| - 1];
      RouteCostPrepend(adj, a, p[..|p| - 1], timeOptimized);
    } else {
      assert ap[..|ap| - 1] == [a];
    }
  }

  /** A station adjacent to the head of a route, put in front, gives a route. */
  lemma IsRoutePrepend(adj: Adjacency, a: int, p: seq<int>)
    requires 0 <= a < |adj| && IsRoute(adj, p) && Adjacent(adj, a, p[0])
    ensures IsRoute(adj, [a] + p)
  {
    var ap := [a] + p;
    forall i | 0 <= i < |ap| - 1
      ensures Adjacent(adj, ap[i], ap[i + 1])
    {
      if i > 0 {
        assert ap[i] == p[i - 1] && ap[i + 1] == p[i];
      }
    }
  }

  /** A route without repeats over stations 0..n-1 has at most n stations. */
  lemma {:induction false} DistinctBound(p: seq<int>, n: nat)
    requires Distinct(p)
    requires forall i :: 0 <= i < |p| ==> 0 <= p[i] < n
    ensures |p| <= n
    decreases |p|
  {
    if p != [] {
      // drop the last station x and rename n - 1 to x in the rest: still distinct, now below n - 1
      var x := p[|p| - 1];
      var rest := p[..|p| - 1];
      var renamed := seq(|rest|, i requires 0 <= i < |rest| => if rest[i] == n - 1 then x else rest[i]);
      forall i | 0 <= i < |renamed|
        ensures 0 <= renamed[i] < n - 1
      {
        assert rest[i] == p[i] && rest[i] != x;
      }
      DistinctBound(renamed, n - 1);
    }
  }

  /** `big` holds every list of `small` as a prefix: edges were only appended. */
  ghost predicate Extends(small: Adjacency, big: Adjacency)
  {
    |small| == |big| &&
    forall u :: 0 <= u < |small| ==> |small[u]| <= |big[u]| && big[u][..|small[u]|] == small[u]
  }

  /** Edges appended behind the first edge to `v` do not change which edge is found. */
  lemma {:induction false} FirstEdgeToAppend(l: seq<Edge>, m: seq<Edge>, v: int)
    requires FirstEdgeTo(l, v).Some?
    ensures FirstEdgeTo(l + m, v) == FirstEdgeTo(l, v)
  {
    assert (l + m)[0] == l[0];
    if l[0].to != v {
      assert (l + m)[1..] == l[1..] + m;
      FirstEdgeToAppend(l[1..], m, v);
    }
  }

  /** A route stays a route, with the same cost, when edges are appended to the lists. */
  lemma {:induction false} ExtendKeepsRoute(small: Adjacency, big: Adjacency, p: seq<int>, timeOptimized: bool)
    requires Extends(small, big) && IsRoute(small, p)
    ensures IsRoute(big, p) && RouteCost(big, p, timeOptimized) == RouteCost(small, p, timeOptimized)
    decreases |p|
  {
    forall i | 0 <= i < |p| - 1
      ensures FirstEdgeTo(big[p[i]], p[i + 1]) == FirstEdgeTo(small[p[i]], p[i + 1])
    {
      var u := p[i];
      assert big[u] == small[u] + big[u][|small[u]|..];
      FirstEdgeToAppend(small[u], big[u][|small[u]|..], p[i + 1]);
    }
    if |p| > 1 {
      var init := p[..|p| - 1];
      assert IsRoute(small, init) by {
        forall i | 0 <= i < |init| - 1
          ensures Adjacent(small, init[i], init[i + 1])
        {
          assert init[i] == p[i] && init[i + 1] == p[i + 1];
        }
      }
      ExtendKeepsRoute(small, big, init, timeOptimized);
    }
  }
}
