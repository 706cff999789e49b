/**
 * The route engine of script.js, the browser port: Dijkstra's algorithm in its O(n^2)
 * form over the constant `edges` table (the nearest station is picked from a set of
 * unvisited stations, whose neighbours that are still unvisited are relaxed), the
 * depth-first enumeration of alternative routes, and calculatePathDistance. The
 * constant `stations` and `edges` tables are parameters here; MetroData shows that the
 * tables script.js declares meet every requirement placed on them. calculateFare is
 * the fare rule of Fares.Fare.
 */
module WebRoutes {
  import opened Wrappers
  import opened Distances
  import opened MetroPaths
  import opened MetroDijkstra
  import opened Alternatives
  import opened MetroData

  /** `MAX_PATHS` of findAlternativeRoutes. */
  const MaxPaths: int := 3

  /** `edges.find(...)` in calculatePathDistance: the first link joining `u` and `v`, in either direction. */
  function FindLink(links: seq<Link>, u: int, v: int): (r: Option<Link>)
    ensures r.Some? ==> r.value in links && Joins(r.value, u, v)
    ensures r.None? <==> forall l :: l in links ==> !Joins(l, u, v)
  {
    if links == [] then None
    else if Joins(links[0], u, v) then Some(links[0])
    else FindLink(links[1..], u, v)
  }

  /**
   * The link `edges.find` picks for a step is the edge the filtered neighbour list holds
   * first for that step: so summing link lengths measures a route as PathDistance does.
   */
  lemma {:induction false} FindLinkIsFirstEdge(links: seq<Link>, u: int, v: int)
    ensures FindLink(links, u, v).None? <==> FirstEdgeTo(Touching(links, u), v).None?
    ensures FindLink(links, u, v).Some? ==>
              FirstEdgeTo(Touching(links, u), v) == Some(Edge(v, FindLink(links, u, v).value.length))
  {
    if links != [] {
      FindLinkIsFirstEdge(links[1..], u, v);
      FarEndFirst(links[0], u, v, Touching(links[1..], u));
    }
  }

  /** The far end of a link, put in front of other edges, is the first edge to `v` exactly when the link joins `u` and `v`. */
  lemma FarEndFirst(l: Link, u: int, v: int, rest: seq<Edge>)
    ensures Joins(l, u, v) ==> FirstEdgeTo(FarEnd(l, u) + rest, v) == Some(Edge(v, l.length))
    ensures !Joins(l, u, v) ==> FirstEdgeTo(FarEnd(l, u) + rest, v) == FirstEdgeTo(rest, v)
  {
    var head := FarEnd(l, u);
    if head != [] {
      assert (head + rest)[0] == head[0] && (head + rest)[1..] == rest;
    } else {
      assert head + rest == rest;
    }
  }

  /** Every step of a route is along a link, so calculatePathDistance finds one for it. */
  lemma RouteHasLinks(links: seq<Link>, n: nat, p: seq<int>)
    requires IsRoute(Graph(links, n), p)
    ensures forall i :: 0 <= i < |p| - 1 ==> FindLink(links, p[i], p[i + 1]).Some?
  {
    forall i | 0 <= i < |p| - 1
      ensures FindLink(links, p[i], p[i + 1]).Some?
    {
      assert Adjacent(Graph(links, n), p[i], p[i + 1]);
      FindLinkIsFirstEdge(links, p[i], p[i + 1]);
    }
  }

  /**
   * calculatePathDistance: for each step the length of the first link joining its two
   * stations, summed; 0 for a path of at most one station. A step without a link makes
   * `edge.length` fail, so every step must have one.
   */
  method CalculatePathDistance(links: seq<Link>, ghost n: nat, path: seq<int>) returns (distance: int)
    requires InRange(Graph(links, n), path)
    requires forall i :: 0 <= i < |path| - 1 ==> FindLink(links, path[i], path[i + 1]).Some?
    ensures distance == PathDistance(Graph(links, n), path)
  {
    ghost var adj := Graph(links, n);
    distance := 0;
    var i := 0;
    while i < |path| - 1
      invariant |path| == 0 ==> i == 0 && distance == 0
      invariant |path| > 0 ==> 0 <= i < |path| && distance == PathDistance(adj, path[..i + 1])
    {
      var edge := FindLink(links, path[i], path[i + 1]).value;
      FindLinkIsFirstEdge(links, path[i], path[i + 1]);
      assert path[..i + 2][..i + 1] == path[..i + 1];
      distance := distance + edge.length;
      i := i + 1;
    }
    if |path| > 0 {
      assert path[..|path|] == path;
    }
  }

  /** `unvisited.delete(x)`: the stations without `x`, in the set's insertion order. */
  function Delete(s: seq<int>, x: int): (r: seq<int>)
    ensures forall y :: y in r <==> y in s && y != x
    ensures x in s ==> |r| < |s|
    ensures x !in s ==> r == s
    ensures x in s && Distinct(s) ==> |r| == |s| - 1
    ensures |r| <= |s| && (Distinct(s) ==> Distinct(r))
  {
    if s == [] then []
    else if s[0] == x then
      assert Distinct(s) ==> x !in s[1..];
      Delete(s[1..], x)
    else
      assert Distinct(s) ==> s[0] !in s[1..] && Distinct(s[1..]);
      [s[0]] + Delete(s[1..], x)
  }

  /**
   * `Array.from(unvisited).reduce((min, node) => distances[node] < distances[min] ? node : min)`:
   * the first station, in the set's order, of least tentative distance.
   */
  method NearestUnvisited(unvisited: seq<int>, distances: seq<Distance>) returns (current: int)
    requires |unvisited| > 0 && forall i :: 0 <= i < |unvisited| ==> 0 <= unvisited[i] < |distances|
    ensures current in unvisited
    ensures forall v :: v in unvisited ==> AtMost(distances[current], distances[v])
    ensures exists k :: 0 <= k < |unvisited| && unvisited[k] == current &&
                        forall j :: 0 <= j < k ==> Shorter(distances[current], distances[unvisited[j]])
  {
    current := unvisited[0];
    ghost var k := 0;
    for i := 1 to |unvisited|
      invariant 0 <= k < i && unvisited[k] == current
      invariant forall j :: 0 <= j < i ==> AtMost(distances[current], distances[unvisited[j]])
      invariant forall j :: 0 <= j < k ==> Shorter(distances[current], distances[unvisited[j]])
    {
      var node := unvisited[i];
      if Shorter(distances[node], distances[current]) {
        current := node;
        k := i;
      }
    }
  }

  /** Stations already taken out of `unvisited`. */
  ghost function Visited(n: int, unvisited: seq<int>): set<int>
  {
    set v | 0 <= v < n && v !in unvisited
  }

  /** Every edge out of a visited station at a finite distance has been relaxed. */
  ghost predicate RelaxedFinite(adj: Adjacency, dist: seq<Distance>, done: set<int>)
    requires WellFormed(adj) && |dist| == |adj|
    requires forall v :: v in done ==> 0 <= v < |adj|
  {
    forall u, e :: u in done && dist[u].Finite? && e in adj[u] ==>
      dist[e.to].Finite? && dist[e.to].value <= dist[u].value + e.weight
  }

  /**
   * The invariant of findShortestPath's main loop: the target is still unvisited; every
   * visited station is no farther than any unvisited one (so one visited while infinitely
   * far leaves only infinitely far stations behind); the edges out of visited stations
   * are relaxed; and `previous` records a tree whose links are edges into stations whose
   * predecessor is visited.
   */
  ghost predicate ScanInv(adj: Adjacency, start: int, end: int, dist: seq<Distance>, prev: seq<int>,
                          unvisited: seq<int>)
  {
    WellFormed(adj) && 0 <= start < |adj| && 0 <= end < |adj| && |dist| == |adj| && |prev| == |adj| &&
    Distinct(unvisited) && InRange(adj, unvisited) && end in unvisited &&
    dist[start] == Finite(0) && prev[start] == -1 &&
    (forall u, v :: u in Visited(|adj|, unvisited) && v in unvisited ==> AtMost(dist[u], dist[v])) &&
    RelaxedFinite(adj, dist, Visited(|adj|, unvisited)) &&
    TreeInv(adj, start, dist, prev, Visited(|adj|, unvisited), true)
  }

  /**
   * The cut argument of the O(n^2) search: a route from the start either runs through
   * visited stations only, and then its end is no farther than the route's length, or it
   * meets an unvisited station, and then some unvisited station is no farther than it.
   */
  lemma {:induction false} ScanCut(adj: Adjacency, start: int, dist: seq<Distance>, unvisited: seq<int>, q: seq<int>)
    requires WellFormed(adj) && |dist| == |adj| && 0 <= start < |adj| && dist[start] == Finite(0)
    requires RelaxedFinite(adj, dist, Visited(|adj|, unvisited))
    requires IsRoute(adj, q) && q[0] == start
    ensures (forall i :: 0 <= i < |q| ==> q[i] !in unvisited) ==>
              dist[q[|q| - 1]].Finite? && dist[q[|q| - 1]].value <= RouteCost(adj, q, true)
    ensures (exists i :: 0 <= i < |q| && q[i] in unvisited) ==>
              exists v :: v in unvisited && 0 <= v < |dist| && dist[v].Finite? && dist[v].value <= RouteCost(adj, q, true)
    decreases |q|
  {
    var done := Visited(|adj|, unvisited);
    if |q| > 1 {
      var init := q[..|q| - 1];
      var u := q[|q| - 2];
      var last := q[|q| - 1];
      assert init[|init| - 1] == u;
      assert IsRoute(adj, init) by {
        forall i | 0 <= i < |init| - 1
          ensures Adjacent(adj, init[i], init[i + 1])
        {
          assert init[i] == q[i] && init[i + 1] == q[i + 1];
        }
      }
      ScanCut(adj, start, dist, unvisited, init);
      assert Adjacent(adj, u, last);
      var e := FirstEdgeTo(adj[u], last).value;
      assert RouteCost(adj, q, true) == RouteCost(adj, init, true) + e.weight;
      if forall i :: 0 <= i < |init| ==> init[i] !in unvisited {
        assert u in done;
        if last in unvisited {
          assert dist[last].Finite? && dist[last].value <= RouteCost(adj, q, true);
        } else {
          assert forall i :: 0 <= i < |q| ==> q[i] == (if i < |init| then init[i] else last);
        }
      } else {
        var k :| 0 <= k < |init| && init[k] in unvisited;
        assert q[k] in unvisited;
        var v :| v in unvisited && 0 <= v < |dist| && dist[v].Finite? && dist[v].value <= RouteCost(adj, init, true);
      }
    }
  }

  /** Picking the target as the nearest unvisited station means its distance is optimal. */
  lemma TargetPickedIsOptimal(adj: Adjacency, start: int, end: int, dist: seq<Distance>, prev: seq<int>,
                              unvisited: seq<int>)
    requires ScanInv(adj, start, end, dist, prev, unvisited)
    requires forall v :: v in unvisited ==> AtMost(dist[end], dist[v])
    ensures Optimal(adj, start, end, dist, true)
    ensures ShortestPathTree(adj, start, dist, prev, true)
  {
    forall q | Connects(adj, q, start, end)
      ensures dist[end].Finite? && dist[end].value <= RouteCost(adj, q, true)
    {
      ScanCut(adj, start, dist, unvisited, q);
      assert q[|q| - 1] in unvisited;
      var v :| v in unvisited && 0 <= v < |dist| && dist[v].Finite? && dist[v].value <= RouteCost(adj, q, true);
      assert AtMost(dist[end], dist[v]);
    }
  }

  /**
   * The invariant of the loop over the neighbours of `u`, after `i` of them: `u` is
   * visited at distance `du`, no visited station is farther than `u`, the edges out of
   * the other visited stations stay relaxed, and so do the first `i` edges of `u`.
   */
  ghost predicate NeighbourInv(adj: Adjacency, start: int, end: int, dist: seq<Distance>, prev: seq<int>,
                               unvisited: seq<int>, u: int, du: Distance, i: int)
  {
    WellFormed(adj) && 0 <= start < |adj| && 0 <= end < |adj| && |dist| == |adj| && |prev| == |adj| &&
    Distinct(unvisited) && InRange(adj, unvisited) && end in unvisited &&
    dist[start] == Finite(0) && prev[start] == -1 &&
    0 <= u < |adj| && u !in unvisited && dist[u] == du && 0 <= i <= |adj[u]| &&
    (forall x, v :: x in Visited(|adj|, unvisited) && v in unvisited ==> AtMost(dist[x], dist[v])) &&
    (forall x :: x in Visited(|adj|, unvisited) ==> AtMost(dist[x], du)) &&
    (forall x, e :: x in Visited(|adj|, unvisited) && x != u && dist[x].Finite? && e in adj[x] ==>
       dist[e.to].Finite? && dist[e.to].value <= dist[x].value + e.weight) &&
    (forall j :: 0 <= j < i && du.Finite? ==>
       dist[adj[u][j].to].Finite? && dist[adj[u][j].to].value <= du.value + adj[u][j].weight) &&
    TreeInv(adj, start, dist, prev, Visited(|adj|, unvisited), true)
  }

  /** Taking the nearest station out of `unvisited` starts the loop over its neighbours. */
  lemma VisitNearest(adj: Adjacency, start: int, end: int, dist: seq<Distance>, prev: seq<int>,
                     unvisited: seq<int>, u: int)
    requires ScanInv(adj, start, end, dist, prev, unvisited)
    requires u in unvisited && u != end && forall v :: v in unvisited ==> AtMost(dist[u], dist[v])
    ensures NeighbourInv(adj, start, end, dist, prev, Delete(unvisited, u), u, dist[u], 0)
  {
    var rest := Delete(unvisited, u);
    var done := Visited(|adj|, unvisited);
    var done' := Visited(|adj|, rest);
    assert done' == done + {u};
    forall x, v | x in done' && v in rest
      ensures AtMost(dist[x], dist[v])
    {
      assert v in unvisited;
    }
    forall x | x in done'
      ensures AtMost(dist[x], dist[u])
    {
    }
    forall x, e | x in done' && x != u && dist[x].Finite? && e in adj[x]
      ensures dist[e.to].Finite? && dist[e.to].value <= dist[x].value + e.weight
    {
      assert x in done;
    }
    TreeInvGrows(adj, start, dist, prev, done, done');
    forall i | 0 <= i < |rest|
      ensures 0 <= rest[i] < |adj|
    {
      assert rest[i] in unvisited;
      var j :| 0 <= j < |unvisited| && unvisited[j] == rest[i];
    }
  }

  /** Visiting more stations keeps the tree: predecessors stay among the visited. */
  lemma TreeInvGrows(adj: Adjacency, start: int, dist: seq<Distance>, prev: seq<int>, done: set<int>, done': set<int>)
    requires TreeInv(adj, start, dist, prev, done, true) && done <= done'
    ensures TreeInv(adj, start, dist, prev, done', true)
  {
  }

  /** A neighbour already visited, or not improved, changes nothing. */
  lemma NeighbourKeep(adj: Adjacency, start: int, end: int, dist: seq<Distance>, prev: seq<int>,
                      unvisited: seq<int>, u: int, du: Distance, i: int)
    requires NeighbourInv(adj, start, end, dist, prev, unvisited, u, du, i)
    requires i < |adj[u]|
    requires adj[u][i].to in unvisited && du.Finite? ==>
               dist[adj[u][i].to].Finite? && dist[adj[u][i].to].value <= du.value + adj[u][i].weight
    ensures NeighbourInv(adj, start, end, dist, prev, unvisited, u, du, i + 1)
  {
    var e := adj[u][i];
    assert e in adj[u];
    if e.to !in unvisited {
      assert e.to in Visited(|adj|, unvisited);
    }
  }

  /** An unvisited neighbour reached more cheaply through `u` gets the lower distance and `u` as predecessor. */
  lemma NeighbourImprove(adj: Adjacency, start: int, end: int, dist: seq<Distance>, prev: seq<int>,
                         unvisited: seq<int>, u: int, du: Distance, i: int,
                         dist': seq<Distance>, prev': seq<int>)
    requires NeighbourInv(adj, start, end, dist, prev, unvisited, u, du, i)
    requires i < |adj[u]| && adj[u][i].to in unvisited
    requires du.Finite? && (dist[adj[u][i].to].Infinite? || du.value + adj[u][i].weight < dist[adj[u][i].to].value)
    requires dist' == dist[adj[u][i].to := Finite(du.value + adj[u][i].weight)] && prev' == prev[adj[u][i].to := u]
    ensures NeighbourInv(adj, start, end, dist', prev', unvisited, u, du, i + 1)
  {
    var e := adj[u][i];
    assert e in adj[u];
    var done := Visited(|adj|, unvisited);
    assert u in done;
    assert e.to != start;
    ImproveKeepsTree(adj, true, start, dist, prev, done, u, e, du.value + e.weight, dist', prev');
  }

  /** After the last neighbour, the invariant of the main loop holds again. */
  lemma NeighboursDone(adj: Adjacency, start: int, end: int, dist: seq<Distance>, prev: seq<int>,
                       unvisited: seq<int>, u: int, du: Distance)
    requires 0 <= u < |adj|
    requires NeighbourInv(adj, start, end, dist, prev, unvisited, u, du, |adj[u]|)
    ensures ScanInv(adj, start, end, dist, prev, unvisited)
  {
    forall x, e | x in Visited(|adj|, unvisited) && dist[x].Finite? && e in adj[x]
      ensures dist[e.to].Finite? && dist[e.to].value <= dist[x].value + e.weight
    {
      if x == u {
        var j :| 0 <= j < |adj[u]| && adj[u][j] == e;
      }
    }
  }

  /**
   * The loop over `neighbors` of the station just visited: a neighbour no longer in
   * `unvisited` is skipped; one whose distance `distances[current] + edge.length` beats
   * gets that distance and `current` as its predecessor.
   */
  method RelaxUnvisited(neighbours: seq<Edge>, current: int, unvisited: seq<int>,
                        distances: seq<Distance>, previous: seq<int>,
                        ghost adj: Adjacency, ghost start: int, ghost end: int)
    returns (distances': seq<Distance>, previous': seq<int>)
    requires 0 <= current < |adj| && neighbours == adj[current] && |distances| == |adj|
    requires NeighbourInv(adj, start, end, distances, previous, unvisited, current, distances[current], 0)
    ensures ScanInv(adj, start, end, distances', previous', unvisited)
    ensures forall v :: 0 <= v < |adj| ==> AtMost(distances'[v], distances[v])
    ensures forall v :: 0 <= v < |adj| && v !in unvisited ==> distances'[v] == distances[v] && previous'[v] == previous[v]
  {
    ghost var du := distances[current];
    distances', previous' := distances, previous;
    for i := 0 to |neighbours|
      invariant NeighbourInv(adj, start, end, distances', previous', unvisited, current, du, i)
      invariant forall v :: 0 <= v < |adj| ==> AtMost(distances'[v], distances[v])
      invariant forall v :: 0 <= v < |adj| && v !in unvisited ==> distances'[v] == distances[v] && previous'[v] == previous[v]
    {
      var edge := neighbours[i];
      assert edge in adj[current];
      var neighbour := edge.to;
      if neighbour !in unvisited {
        NeighbourKeep(adj, start, end, distances', previous', unvisited, current, du, i);
        continue;
      }
      var alt := Extend(distances'[current], edge.weight);
      if Shorter(alt, distances'[neighbour]) {
        NeighbourImprove(adj, start, end, distances', previous', unvisited, current, du, i,
                         distances'[neighbour := alt], previous'[neighbour := current]);
        distances' := distances'[neighbour := alt];
        previous' := previous'[neighbour := current];
      } else {
        NeighbourKeep(adj, start, end, distances', previous', unvisited, current, du, i);
      }
    }
    NeighboursDone(adj, start, end, distances', previous', unvisited, current, du);
  }

  /**
   * findShortestPath's search: every station starts infinitely far with no predecessor
   * and unvisited, the start at 0; the nearest unvisited station is taken until it is
   * the target. The loop always ends there: the target never leaves `unvisited`, and
   * every other pick removes one station from it.
   */
  method ScanDijkstra(stations: seq<Station>, links: seq<Link>, start: int, end: int)
    returns (distances: seq<Distance>, previous: seq<int>)
    requires NumberedInOrder(stations) && LinksWellFormed(links, |stations|)
    requires 0 <= start < |stations| && 0 <= end < |stations|
    ensures ShortestPathTree(Graph(links, |stations|), start, distances, previous, true)
    ensures Optimal(Graph(links, |stations|), start, end, distances, true)
  {
    var n := |stations|;
    ghost var adj := Graph(links, n);
    GraphShape(links, n);
    distances := seq(n, _ => Infinite);
    previous := seq(n, _ => -1);
    var unvisited := seq(n, i requires 0 <= i < n => stations[i].id);
    forall v | 0 <= v < n
      ensures v in unvisited
    {
      assert unvisited[v] == v;
    }
    assert Visited(n, unvisited) == {};
    distances := distances[start := Finite(0)];
    ghost var found := false;
    while |unvisited| > 0
      invariant ScanInv(adj, start, end, distances, previous, unvisited)
      invariant found ==> Optimal(adj, start, end, distances, true) && ShortestPathTree(adj, start, distances, previous, true)
      decreases |unvisited|
    {
      var current := NearestUnvisited(unvisited, distances);
      if current == end {
        TargetPickedIsOptimal(adj, start, end, distances, previous, unvisited);
        found := true;
        break;
      }
      VisitNearest(adj, start, end, distances, previous, unvisited, current);
      unvisited := Delete(unvisited, current);
      var neighbours := Touching(links, current);
      distances, previous := RelaxUnvisited(neighbours, current, unvisited, distances, previous, adj, start, end);
    }
    if !found {
      assert false;
    }
  }

  /**
   * findShortestPath: the walk back from the target along `previous` (prepending with
   * `unshift` until the start's null predecessor), returned only when it holds more than
   * one station. So the result is null exactly when the start is the target or the target
   * cannot be reached; otherwise it is a route from the start to the target along the
   * tracks, and a shortest one when no two tracks join the same pair of stations.
   */
  method FindShortestPath(stations: seq<Station>, links: seq<Link>, start: int, end: int)
    returns (path: Option<seq<int>>)
    requires NumberedInOrder(stations) && LinksWellFormed(links, |stations|)
    requires 0 <= start < |stations| && 0 <= end < |stations|
    ensures path.None? <==> start == end || forall q :: !Connects(Graph(links, |stations|), q, start, end)
    ensures path.Some? ==> |path.value| >= 2 && Connects(Graph(links, |stations|), path.value, start, end)
    ensures path.Some? && NoParallel(Graph(links, |stations|)) ==>
              Shortest(Graph(links, |stations|), path.value, start, end, true)
  {
    var adj := Graph(links, |stations|);
    GraphShape(links, |stations|);
    var distances, previous := ScanDijkstra(stations, links, start, end);
    var trace := TracePath(adj, start, end, distances, previous, true);
    if |trace| > 1 {
      path := Some(trace);
    } else {
      path := None;
    }
  }

  /**
   * The state `dfs` shares with findAlternativeRoutes: the `visited` set, the
   * `currentPath` array and the `allPaths` array, together with the target and the
   * shortest distance the closure captures.
   */
  class RouteExplorer {
    const links: seq<Link>
    ghost const stationCount: nat
    const end: int
    const shortestDistance: int
    var visited: set<int>
    var currentPath: seq<int>
    var allPaths: seq<seq<int>>

    /** `const visited = new Set(); const currentPath = [start]; const allPaths = [];` */
    constructor (links: seq<Link>, ghost stationCount: nat, start: int, end: int, shortestDistance: int)
      ensures this.links == links && this.stationCount == stationCount && this.end == end
      ensures this.shortestDistance == shortestDistance
      ensures visited == {} && currentPath == [start] && allPaths == []
    {
      this.links := links;
      this.stationCount := stationCount;
      this.end := end;
      this.shortestDistance := shortestDistance;
      visited := {};
      currentPath := [start];
      allPaths := [];
    }

    ghost function Adj(): Adjacency
      reads this
    {
      Graph(links, stationCount)
    }

    /**
     * Between calls of `dfs`: the path is a route along the tracks without a repeated
     * station, and `visited` holds exactly its stations.
     */
    ghost predicate OnPath()
      reads this
    {
      LinksWellFormed(links, stationCount) && 0 <= end < stationCount &&
      |currentPath| >= 1 && IsRoute(Adj(), currentPath) && Distinct(currentPath) &&
      forall v :: v in visited <==> v in currentPath
    }

    /**
     * dfs(current), with `current` the last station of `currentPath`: at the target the
     * path is copied into `allPaths` when its distance is at most 1.5 times the shortest
     * distance, however many routes are already held; elsewhere, unless `allPaths`
     * already holds MAX_PATHS routes, every unvisited neighbour is pushed, explored and
     * popped again. Afterwards the path and
     * `visited` are as before; routes were only appended, each a route found from here;
     * and when fewer than MAX_PATHS routes are held in the end, none was missed.
     */
    method Dfs(current: int)
      requires OnPath() && currentPath[|currentPath| - 1] == current
      modifies this
      ensures currentPath == old(currentPath) && visited == old(visited)
      ensures |allPaths| >= |old(allPaths)| && allPaths[..|old(allPaths)|] == old(allPaths)
      ensures forall k :: |old(allPaths)| <= k < |allPaths| ==>
                Found(Adj(), old(currentPath)[..|old(currentPath)| - 1], current, end, shortestDistance, allPaths[k])
      ensures current == end ==>
                allPaths == old(allPaths) +
                  if WithinDeviation(PathDistance(Adj(), old(currentPath)), shortestDistance) then [old(currentPath)] else []
      ensures |old(allPaths)| >= MaxPaths && current != end ==> allPaths == old(allPaths)
      ensures |allPaths| < MaxPaths ==>
                forall r :: Found(Adj(), old(currentPath)[..|old(currentPath)| - 1], current, end, shortestDistance, r) ==>
                  r in allPaths
      decreases stationCount - |currentPath|, 2
    {
      var prefix := currentPath[..|currentPath| - 1];
      assert currentPath == prefix + [current];
      assert InRange(Adj(), prefix) && Distinct(prefix) && current !in prefix;
      DistinctBound(currentPath, stationCount);
      if current == end {
        RouteHasLinks(links, stationCount, currentPath);
        var distance := CalculatePathDistance(links, stationCount, currentPath);
        if 2 * distance <= 3 * shortestDistance {
          allPaths := allPaths + [currentPath];
        }
        forall r | Found(Adj(), prefix, current, end, shortestDistance, r)
          ensures r == currentPath && WithinDeviation(distance, shortestDistance)
        {
          FoundAtDestination(Adj(), prefix, end, shortestDistance, r);
        }
        forall k | |old(allPaths)| <= k < |allPaths|
          ensures Found(Adj(), prefix, current, end, shortestDistance, allPaths[k])
        {
          FoundAtDestination(Adj(), prefix, end, shortestDistance, allPaths[k]);
        }
        return;
      }
      if |allPaths| >= MaxPaths {
        return;
      }
      Explore(current);
      forall r
        ensures Found(Adj(), prefix, current, end, shortestDistance, r) <==>
                exists j :: 0 <= j < |Adj()[current]| && Adj()[current][j].to !in currentPath &&
                            Found(Adj(), currentPath, Adj()[current][j].to, end, shortestDistance, r)
      {
        FoundStep(Adj(), prefix, current, end, shortestDistance, r);
      }
    }

    /** The loop of dfs over `neighbors`, the links touching `current`, each seen from `current`. */
    method Explore(current: int)
      requires OnPath() && currentPath[|currentPath| - 1] == current
      modifies this
      ensures currentPath == old(currentPath) && visited == old(visited)
      ensures ExploredUpTo(Adj(), old(currentPath), current, end, shortestDistance, |Adj()[current]|,
                           old(allPaths), allPaths)
      decreases stationCount - |currentPath|, 1
    {
      ghost var path, marks, paths0 := currentPath, visited, allPaths;
      ghost var adj := Adj();
      GraphShape(links, stationCount);
      var neighbours := Touching(links, current);
      for i := 0 to |neighbours|
        invariant OnPath() && currentPath == path && visited == marks
        invariant adj == Adj() && neighbours == adj[current]
        invariant ExploredUpTo(adj, path, current, end, shortestDistance, i, paths0, allPaths)
      {
        var neighbour := neighbours[i].to;
        ghost var paths1 := allPaths;
        if neighbour !in visited {
          assert neighbours[i] in adj[current];
          Branch(current, neighbour);
        }
        ExploredOne(adj, path, current, end, shortestDistance, i, paths0, paths1, allPaths);
      }
    }

    /**
     * The body of that loop for a neighbour off the path: push it, search on from it,
     * pop it. The routes appended are those found through it, all of them while fewer
     * than MAX_PATHS are held.
     */
    method Branch(current: int, neighbour: int)
      requires OnPath() && currentPath[|currentPath| - 1] == current
      requires neighbour !in visited && exists e :: e in Adj()[current] && e.to == neighbour
      modifies this
      ensures currentPath == old(currentPath) && visited == old(visited)
      ensures |allPaths| >= |old(allPaths)| && allPaths[..|old(allPaths)|] == old(allPaths)
      ensures forall k :: |old(allPaths)| <= k < |allPaths| ==>
                Found(Adj(), old(currentPath), neighbour, end, shortestDistance, allPaths[k])
      ensures |allPaths| < MaxPaths ==>
                forall r :: Found(Adj(), old(currentPath), neighbour, end, shortestDistance, r) ==> r in allPaths
      decreases stationCount - |currentPath|, 0
    {
      ghost var path := currentPath;
      DistinctBound(path, stationCount);
      GraphShape(links, stationCount);
      Push(current, neighbour);
      assert currentPath[..|currentPath| - 1] == path;
      Dfs(neighbour);
      currentPath := currentPath[..|currentPath| - 1];
      visited := visited - {neighbour};
    }

    /** `visited.add(neighbor); currentPath.push(neighbor);` */
    method Push(current: int, neighbour: int)
      requires OnPath() && currentPath[|currentPath| - 1] == current
      requires 0 <= current < stationCount && 0 <= neighbour < stationCount
      requires neighbour !in visited
      requires exists e :: e in Adj()[current] && e.to == neighbour
      modifies this
      ensures OnPath() && currentPath == old(currentPath) + [neighbour] && visited == old(visited) + {neighbour}
      ensures allPaths == old(allPaths)
    {
      ghost var path := currentPath;
      visited := visited + {neighbour};
      currentPath := currentPath + [neighbour];
      GraphShape(links, stationCount);
      assert Adjacent(Adj(), current, neighbour);
      assert IsRoute(Adj(), currentPath) by {
        forall i | 0 <= i < |currentPath| - 1
          ensures Adjacent(Adj(), currentPath[i], currentPath[i + 1])
        {
          if i < |path| - 1 {
            assert currentPath[i] == path[i] && currentPath[i + 1] == path[i + 1];
          }
        }
      }
    }
  }

  /**
   * The loop of dfs over the neighbours of `current`, after `i` of them: the routes held
   * before the loop are kept, each route added since is one found through one of the
   * first `i` neighbours off the path, and while fewer than MAX_PATHS are held, every
   * such route is held.
   */
  ghost predicate ExploredUpTo(adj: Adjacency, path: seq<int>, current: int, end: int, limit: int, i: int,
                               paths0: seq<seq<int>>, paths: seq<seq<int>>)
  {
    0 <= current < |adj| && 0 <= i <= |adj[current]| &&
    |paths| >= |paths0| && paths[..|paths0|] == paths0 &&
    (forall k :: |paths0| <= k < |paths| ==>
       exists j :: 0 <= j < i && adj[current][j].to !in path &&
                   Found(adj, path, adj[current][j].to, end, limit, paths[k])) &&
    (|paths| < MaxPaths ==>
       forall r, j ::
         0 <= j < i && adj[current][j].to !in path && Found(adj, path, adj[current][j].to, end, limit, r) ==>
         r in paths)
  }

  /**
   * One more neighbour: skipped when it is on the path, otherwise explored, appending
   * only routes found through it and, while fewer than MAX_PATHS are held, all of them.
   */
  lemma ExploredOne(adj: Adjacency, path: seq<int>, current: int, end: int, limit: int, i: int,
                    paths0: seq<seq<int>>, paths1: seq<seq<int>>, paths2: seq<seq<int>>)
    requires ExploredUpTo(adj, path, current, end, limit, i, paths0, paths1) && i < |adj[current]|
    requires |paths2| >= |paths1| && paths2[..|paths1|] == paths1
    requires adj[current][i].to in path ==> paths2 == paths1
    requires adj[current][i].to !in path ==>
               (forall k :: |paths1| <= k < |paths2| ==> Found(adj, path, adj[current][i].to, end, limit, paths2[k])) &&
               (|paths2| < MaxPaths ==>
                  forall r :: Found(adj, path, adj[current][i].to, end, limit, r) ==> r in paths2)
    ensures ExploredUpTo(adj, path, current, end, limit, i + 1, paths0, paths2)
  {
    assert paths2[..|paths0|] == paths1[..|paths0|];
    forall k | |paths0| <= k < |paths2|
      ensures exists j :: 0 <= j < i + 1 && adj[current][j].to !in path &&
                          Found(adj, path, adj[current][j].to, end, limit, paths2[k])
    {
      if k < |paths1| {
        assert paths2[k] == paths1[k];
        var j :| 0 <= j < i && adj[current][j].to !in path && Found(adj, path, adj[current][j].to, end, limit, paths1[k]);
      } else {
        assert adj[current][i].to !in path && Found(adj, path, adj[current][i].to, end, limit, paths2[k]);
      }
    }
    if |paths2| < MaxPaths {
      forall r, j | 0 <= j < i + 1 && adj[current][j].to !in path && Found(adj, path, adj[current][j].to, end, limit, r)
        ensures r in paths2
      {
        if j < i {
          assert r in paths1;
        }
      }
    }
  }

  /**
   * findAlternativeRoutes: the shortest path's distance is the bound; `dfs` runs from the
   * start with only the start visited. When there is no shortest path (the start is the
   * target, or the target is unreachable) calculatePathDistance fails on null and no
   * list comes back. Every route returned runs from the start to the target without
   * repeating a station and is at most 1.5 times as long as any route between them;
   * when fewer than MAX_PATHS come back, every such route is among them.
   */
  method FindAlternativeRoutes(stations: seq<Station>, links: seq<Link>, start: int, end: int)
    returns (paths: Option<seq<seq<int>>>)
    requires NumberedInOrder(stations) && LinksWellFormed(links, |stations|)
    requires 0 <= start < |stations| && 0 <= end < |stations|
    ensures paths.None? <==> start == end || forall q :: !Connects(Graph(links, |stations|), q, start, end)
    ensures paths.Some? ==>
              forall r :: r in paths.value ==> Connects(Graph(links, |stations|), r, start, end) && Distinct(r)
    ensures paths.Some? && NoParallel(Graph(links, |stations|)) ==>
              forall r, q :: r in paths.value && Connects(Graph(links, |stations|), q, start, end) ==>
                2 * PathDistance(Graph(links, |stations|), r) <= 3 * PathDistance(Graph(links, |stations|), q)
    ensures paths.Some? && NoParallel(Graph(links, |stations|)) && |paths.value| < MaxPaths ==>
              forall r, s :: Shortest(Graph(links, |stations|), s, start, end, true) &&
                             Connects(Graph(links, |stations|), r, start, end) && Distinct(r) &&
                             WithinDeviation(PathDistance(Graph(links, |stations|), r),
                                             PathDistance(Graph(links, |stations|), s)) ==>
                r in paths.value
  {
    var n := |stations|;
    ghost var adj := Graph(links, n);
    var shortestPath := FindShortestPath(stations, links, start, end);
    if shortestPath.None? {
      return None;
    }
    RouteHasLinks(links, n, shortestPath.value);
    var shortestDistance := CalculatePathDistance(links, n, shortestPath.value);
    var explorer := new RouteExplorer(links, n, start, end, shortestDistance);
    explorer.visited := explorer.visited + {start};
    assert explorer.currentPath[..|explorer.currentPath| - 1] == [];
    explorer.Dfs(start);
    paths := Some(explorer.allPaths);
    forall r | Found(adj, [], start, end, shortestDistance, r)
      ensures r[0..] == r
    {
    }
    forall r | r in explorer.allPaths
      ensures Connects(adj, r, start, end) && Distinct(r) && WithinDeviation(PathDistance(adj, r), shortestDistance)
    {
      var k :| 0 <= k < |explorer.allPaths| && explorer.allPaths[k] == r;
      assert r[0..] == r;
    }
    if NoParallel(adj) {
      forall r, s | Shortest(adj, s, start, end, true) && Connects(adj, r, start, end) && Distinct(r) &&
                    WithinDeviation(PathDistance(adj, r), PathDistance(adj, s))
        ensures Found(adj, [], start, end, shortestDistance, r)
      {
        assert r[0..] == r;
      }
    }
  }
}
