/**
 * The search inside MetroGraph.findShortestPath (MetroRouteOptimization.java): Dijkstra's
 * algorithm over the adjacency lists with a priority queue of (station, distance) entries
 * that are never removed when improved ("lazy deletion"), stopping as soon as the target
 * leaves the queue; and the walk back along `previous` that turns the result into a route.
 */
module MetroDijkstra {
  import opened Distances
  import opened MetroPaths

  /**
   * What the search leaves behind: the start at distance 0 with no predecessor, and every
   * other station either unreached (infinite, no predecessor) or reached from its recorded
   * predecessor along one edge whose cost makes up the difference of their distances.
   */
  ghost predicate ShortestPathTree(adj: Adjacency, start: int, dist: seq<Distance>, prev: seq<int>, mode: bool)
  {
    |dist| == |adj| && |prev| == |adj| && 0 <= start < |adj| &&
    dist[start] == Finite(0) && prev[start] == -1 &&
    forall v :: 0 <= v < |adj| ==> TreeLink(adj, start, dist, prev, v, mode)
  }

  ghost predicate TreeLink(adj: Adjacency, start: int, dist: seq<Distance>, prev: seq<int>, v: int, mode: bool)
    requires |dist| == |adj| && |prev| == |adj| && 0 <= v < |adj|
  {
    (prev[v] == -1 <==> v == start || dist[v].Infinite?) &&
    (prev[v] != -1 ==>
      0 <= prev[v] < |adj| && dist[prev[v]].Finite? && dist[v].Finite? &&
      exists e :: e in adj[prev[v]] && e.to == v && dist[v].value == dist[prev[v]].value + EdgeCost(e, mode))
  }

  /** The distance found for `end` is finite and no larger than the cost of any route to it. */
  ghost predicate Optimal(adj: Adjacency, start: int, end: int, dist: seq<Distance>, mode: bool)
  {
    |dist| == |adj| && 0 <= end < |adj| &&
    forall q :: Connects(adj, q, start, end) ==> dist[end].Finite? && dist[end].value <= RouteCost(adj, q, mode)
  }

  /** Every reached station that is not settled yet waits in the queue with its current distance. */
  ghost predicate Queued(dist: seq<Distance>, done: set<int>, pq: multiset<Edge>)
  {
    forall v :: 0 <= v < |dist| && dist[v].Finite? && v !in done ==> Edge(v, dist[v].value) in pq
  }

  /** Every queue entry names a reached station and is at least that station's distance. */
  ghost predicate EntriesBound(dist: seq<Distance>, pq: multiset<Edge>)
  {
    forall f :: f in pq ==> 0 <= f.to < |dist| && dist[f.to].Finite? && dist[f.to].value <= f.weight
  }

  /** Settled stations are no farther than any entry still queued. */
  ghost predicate DoneFirst(dist: seq<Distance>, done: set<int>, pq: multiset<Edge>)
    requires forall v :: v in done ==> 0 <= v < |dist| && dist[v].Finite?
  {
    forall u, f :: u in done && f in pq ==> dist[u].value <= f.weight
  }

  /** Every edge out of a settled station has been relaxed. */
  ghost predicate Relaxed(adj: Adjacency, dist: seq<Distance>, done: set<int>, mode: bool)
    requires |dist| == |adj| && forall v :: v in done ==> 0 <= v < |dist| && dist[v].Finite?
    requires WellFormed(adj)
  {
    forall u, e :: u in done && e in adj[u] ==>
      dist[e.to].Finite? && dist[e.to].value <= dist[u].value + EdgeCost(e, mode)
  }

  ghost function Unsettled(n: int, done: set<int>): set<int>
  {
    set v | 0 <= v < n && v !in done
  }

  /** Settling a station shrinks the unsettled stations, unless it was settled already. */
  lemma SettlingShrinks(n: int, done: set<int>, u: int)
    requires 0 <= u < n
    ensures u in done ==> Unsettled(n, done + {u}) == Unsettled(n, done)
    ensures u !in done ==> Unsettled(n, done + {u}) < Unsettled(n, done)
  {
    if u !in done {
      assert u in Unsettled(n, done);
    }
  }

  /** A non-empty queue has an entry of least distance: the one `PriorityQueue.poll` returns. */
  lemma {:induction false} MinEntryExists(pq: multiset<Edge>)
    requires pq != multiset{}
    ensures exists c :: c in pq && forall g :: g in pq ==> c.weight <= g.weight
    decreases |pq|
  {
    var x :| x in pq;
    var rest := pq - multiset{x};
    if rest == multiset{} {
      assert pq == multiset{x};
    } else {
      MinEntryExists(rest);
      var m :| m in rest && forall g :: g in rest ==> m.weight <= g.weight;
      var c := if m.weight <= x.weight then m else x;
      assert pq == rest + multiset{x};
      assert c in pq && forall g :: g in pq ==> c.weight <= g.weight;
    }
  }

  /**
   * The cut argument: a route from the start either runs through settled stations only,
   * and then its end is already no farther than the route's cost, or it leaves them, and
   * then some queued entry is no larger than the route's cost.
   */
  lemma {:induction false} CutLemma(adj: Adjacency, mode: bool, start: int, dist: seq<Distance>,
                                    done: set<int>, pq: multiset<Edge>, q: seq<int>)
    requires WellFormed(adj) && |dist| == |adj|
    requires 0 <= start < |adj| && dist[start] == Finite(0)
    requires forall v :: v in done ==> 0 <= v < |dist| && dist[v].Finite?
    requires Queued(dist, done, pq) && Relaxed(adj, dist, done, mode)
    requires IsRoute(adj, q) && q[0] == start
    ensures (forall i :: 0 <= i < |q| ==> q[i] in done) ==>
              dist[q[|q| - 1]].Finite? && dist[q[|q| - 1]].value <= RouteCost(adj, q, mode)
    ensures (exists i :: 0 <= i < |q| && q[i] !in done) ==>
              exists f :: f in pq && f.weight <= RouteCost(adj, q, mode)
    decreases |q|
  {
    var last := q[|q| - 1];
    if |q| == 1 {
      if start !in done {
        assert Edge(start, 0) in pq;
      }
    } else {
      var init := q[..|q| - 1];
      var u := q[|q| - 2];
      assert init[|init| - 1] == u;
      CutLemma(adj, mode, start, dist, done, pq, init);
      assert Adjacent(adj, u, last);
      var e := FirstEdgeTo(adj[u], last).value;
      assert RouteCost(adj, q, mode) == RouteCost(adj, init, mode) + EdgeCost(e, mode);
      if forall i :: 0 <= i < |init| ==> init[i] in done {
        assert u in done;
        if last !in done {
          assert Edge(last, dist[last].value) in pq;
        } else {
          assert forall i :: 0 <= i < |q| ==> q[i] == (if i < |init| then init[i] else last);
        }
      } else {
        var k :| 0 <= k < |init| && init[k] !in done;
        assert q[k] !in done;
        var f :| f in pq && f.weight <= RouteCost(adj, init, mode);
      }
    }
  }

  /** Popping the target with the least entry means its distance is final and optimal. */
  lemma TargetPoppedIsOptimal(adj: Adjacency, mode: bool, start: int, end: int, dist: seq<Distance>,
                              done: set<int>, pq: multiset<Edge>, current: Edge)
    requires WellFormed(adj) && |dist| == |adj|
    requires 0 <= start < |adj| && 0 <= end < |adj| && dist[start] == Finite(0)
    requires forall v :: v in done ==> 0 <= v < |dist| && dist[v].Finite?
    requires Queued(dist, done, pq) && Relaxed(adj, dist, done, mode) && EntriesBound(dist, pq)
    requires end !in done
    requires current in pq && current.to == end && forall g :: g in pq ==> current.weight <= g.weight
    ensures Optimal(adj, start, end, dist, mode)
  {
    forall q | Connects(adj, q, start, end)
      ensures dist[end].Finite? && dist[end].value <= RouteCost(adj, q, mode)
    {
      CutLemma(adj, mode, start, dist, done, pq, q);
      assert q[|q| - 1] !in done;
      var f :| f in pq && f.weight <= RouteCost(adj, q, mode);
    }
  }

  /** With the queue empty and the target never settled, no route reaches the target. */
  lemma EmptyQueueMeansUnreachable(adj: Adjacency, mode: bool, start: int, end: int, dist: seq<Distance>,
                                   done: set<int>, pq: multiset<Edge>)
    requires WellFormed(adj) && |dist| == |adj|
    requires 0 <= start < |adj| && 0 <= end < |adj| && dist[start] == Finite(0)
    requires forall v :: v in done ==> 0 <= v < |dist| && dist[v].Finite?
    requires Queued(dist, done, pq) && Relaxed(adj, dist, done, mode) && pq == multiset{}
    requires end !in done
    ensures forall q :: !Connects(adj, q, start, end)
  {
    forall q
      ensures !Connects(adj, q, start, end)
    {
      if Connects(adj, q, start, end) {
        assert q[|q| - 1] !in done;
        CutLemma(adj, mode, start, dist, done, pq, q);
      }
    }
  }

  /** The invariant of the search loop, between two polls. */
  ghost predicate SearchInv(adj: Adjacency, mode: bool, start: int, end: int, dist: seq<Distance>, prev: seq<int>,
                            pq: multiset<Edge>, done: set<int>)
  {
    WellFormed(adj) && 0 <= start < |adj| && 0 <= end < |adj| && |dist| == |adj| && |prev| == |adj| &&
    (forall v :: v in done ==> 0 <= v < |adj| && dist[v].Finite?) &&
    end !in done && dist[start] == Finite(0) && prev[start] == -1 &&
    Queued(dist, done, pq) && EntriesBound(dist, pq) && DoneFirst(dist, done, pq) &&
    Relaxed(adj, dist, done, mode) &&
    TreeInv(adj, start, dist, prev, done, mode)
  }

  /** Every station's tree link holds, and every recorded predecessor is settled. */
  ghost predicate TreeInv(adj: Adjacency, start: int, dist: seq<Distance>, prev: seq<int>, done: set<int>, mode: bool)
  {
    |dist| == |adj| && |prev| == |adj| &&
    (forall v :: 0 <= v < |adj| ==> TreeLink(adj, start, dist, prev, v, mode)) &&
    (forall v :: 0 <= v < |adj| && prev[v] != -1 ==> prev[v] in done)
  }

  /** The edges out of settled stations other than `u` are relaxed. */
  ghost predicate RelaxedBut(adj: Adjacency, dist: seq<Distance>, done: set<int>, u: int, mode: bool)
    requires WellFormed(adj) && |dist| == |adj| && forall v :: v in done ==> 0 <= v < |adj| && dist[v].Finite?
  {
    forall x, e :: x in done && x != u && e in adj[x] ==>
      dist[e.to].Finite? && dist[e.to].value <= dist[x].value + EdgeCost(e, mode)
  }

  /** The first `i` edges of `u` are relaxed with respect to `u`'s distance `du`. */
  ghost predicate RelaxedPrefix(adj: Adjacency, dist: seq<Distance>, u: int, du: int, i: int, mode: bool)
    requires WellFormed(adj) && |dist| == |adj| && 0 <= u < |adj| && 0 <= i <= |adj[u]|
  {
    forall j :: 0 <= j < i ==>
      dist[adj[u][j].to].Finite? && dist[adj[u][j].to].value <= du + EdgeCost(adj[u][j], mode)
  }

  /**
   * The invariant of the inner loop over the edges of the polled station `u`, after `i`
   * of them: `u` is settled at distance `du`; edges out of other settled stations stay
   * relaxed, and so do the first `i` edges of `u`. A station polled a second time
   * (`wasDone`) changes nothing; one polled for the first time is no closer than any
   * settled station, so only unsettled stations improve.
   */
  ghost predicate RelaxInv(adj: Adjacency, mode: bool, start: int, end: int, dist: seq<Distance>, prev: seq<int>,
                           pq: multiset<Edge>, done: set<int>, u: int, du: nat, i: int,
                           wasDone: bool, dist0: seq<Distance>, prev0: seq<int>, pq0: multiset<Edge>)
  {
    WellFormed(adj) && 0 <= start < |adj| && 0 <= end < |adj| && |dist| == |adj| && |prev| == |adj| &&
    0 <= u < |adj| && 0 <= i <= |adj[u]| && u in done && dist[u] == Finite(du) &&
    (forall v :: v in done ==> 0 <= v < |adj| && dist[v].Finite?) &&
    end !in done && dist[start] == Finite(0) && prev[start] == -1 &&
    (wasDone ==> dist == dist0 && prev == prev0 && pq == pq0 && Relaxed(adj, dist, done, mode)) &&
    (!wasDone ==> forall x :: x in done ==> dist[x].value <= du) &&
    Queued(dist, done, pq) && EntriesBound(dist, pq) && DoneFirst(dist, done, pq) &&
    RelaxedBut(adj, dist, done, u, mode) && RelaxedPrefix(adj, dist, u, du, i, mode) &&
    TreeInv(adj, start, dist, prev, done, mode)
  }

  /** Polling the least entry for a station other than the target starts the inner loop. */
  lemma PollStartsRelaxing(adj: Adjacency, mode: bool, start: int, end: int, dist: seq<Distance>, prev: seq<int>,
                           queued: multiset<Edge>, done: set<int>, current: Edge)
    requires SearchInv(adj, mode, start, end, dist, prev, queued, done)
    requires current in queued && forall g :: g in queued ==> current.weight <= g.weight
    requires current.to != end
    ensures 0 <= current.to < |adj| && dist[current.to].Finite?
    ensures current.to !in done ==> dist[current.to].value == current.weight
    ensures RelaxInv(adj, mode, start, end, dist, prev, queued - multiset{current}, done + {current.to},
                     current.to, dist[current.to].value, 0,
                     current.to in done, dist, prev, queued - multiset{current})
  {
    var u := current.to;
    var pq := queued - multiset{current};
    var du := dist[u].value;
    assert forall f :: f in pq ==> f in queued;
    if u !in done {
      assert Edge(u, du) in queued;
    }
    forall v | 0 <= v < |dist| && dist[v].Finite? && v !in done + {u}
      ensures Edge(v, dist[v].value) in pq
    {
      assert Edge(v, dist[v].value) in queued && Edge(v, dist[v].value) != current;
    }
  }

  /** An edge that does not improve its far end leaves everything as it is. */
  lemma RelaxKeep(adj: Adjacency, mode: bool, start: int, end: int, dist: seq<Distance>, prev: seq<int>,
                  pq: multiset<Edge>, done: set<int>, u: int, du: nat, i: int,
                  wasDone: bool, dist0: seq<Distance>, prev0: seq<int>, pq0: multiset<Edge>)
    requires RelaxInv(adj, mode, start, end, dist, prev, pq, done, u, du, i, wasDone, dist0, prev0, pq0)
    requires i < |adj[u]|
    requires !Shorter(Finite(du + EdgeCost(adj[u][i], mode)), dist[adj[u][i].to])
    ensures RelaxInv(adj, mode, start, end, dist, prev, pq, done, u, du, i + 1, wasDone, dist0, prev0, pq0)
  {
  }

  /** An edge that improves its far end `v`: `v` is unsettled, and lowering it keeps the invariant. */
  lemma RelaxImprove(adj: Adjacency, mode: bool, start: int, end: int, dist: seq<Distance>, prev: seq<int>,
                     pq: multiset<Edge>, done: set<int>, u: int, du: nat, i: int,
                     wasDone: bool, dist0: seq<Distance>, prev0: seq<int>, pq0: multiset<Edge>,
                     d: nat, dist1: seq<Distance>, prev1: seq<int>, pq1: multiset<Edge>)
    requires RelaxInv(adj, mode, start, end, dist, prev, pq, done, u, du, i, wasDone, dist0, prev0, pq0)
    requires i < |adj[u]| && d == du + EdgeCost(adj[u][i], mode)
    requires Shorter(Finite(d), dist[adj[u][i].to])
    requires dist1 == dist[adj[u][i].to := Finite(d)] && prev1 == prev[adj[u][i].to := u]
    requires pq1 == pq + multiset{Edge(adj[u][i].to, d)}
    ensures RelaxInv(adj, mode, start, end, dist1, prev1, pq1, done, u, du, i + 1, wasDone, dist0, prev0, pq0)
  {
    var e := adj[u][i];
    var v := e.to;
    assert e in adj[u];
    assert !wasDone;
    assert v !in done && v != start;
    ImproveKeepsTree(adj, mode, start, dist, prev, done, u, e, d, dist1, prev1);
    ImproveKeepsQueue(dist, pq, done, v, d, dist1, pq1);
    ImproveKeepsRelaxed(adj, mode, dist, done, u, du, i, d, dist1);
  }

  /** Lowering the far end of `u`'s `i`-th edge to `d` relaxes that edge and keeps the others relaxed. */
  lemma ImproveKeepsRelaxed(adj: Adjacency, mode: bool, dist: seq<Distance>, done: set<int>, u: int, du: nat, i: int,
                            d: nat, dist': seq<Distance>)
    requires WellFormed(adj) && |dist| == |adj| && 0 <= u < |adj| && 0 <= i < |adj[u]|
    requires forall v :: v in done ==> 0 <= v < |adj| && dist[v].Finite?
    requires adj[u][i].to !in done && d == du + EdgeCost(adj[u][i], mode)
    requires Shorter(Finite(d), dist[adj[u][i].to])
    requires RelaxedBut(adj, dist, done, u, mode) && RelaxedPrefix(adj, dist, u, du, i, mode)
    requires dist' == dist[adj[u][i].to := Finite(d)]
    ensures forall v :: v in done ==> dist'[v] == dist[v]
    ensures RelaxedBut(adj, dist', done, u, mode) && RelaxedPrefix(adj, dist', u, du, i + 1, mode)
  {
  }

  /** Lowering an unsettled station's distance and queueing it keeps the queue invariants. */
  lemma ImproveKeepsQueue(dist: seq<Distance>, pq: multiset<Edge>, done: set<int>, v: int, d: nat,
                          dist': seq<Distance>, pq': multiset<Edge>)
    requires 0 <= v < |dist| && v !in done && Shorter(Finite(d), dist[v])
    requires forall x :: x in done ==> 0 <= x < |dist| && dist[x].Finite? && dist[x].value <= d
    requires Queued(dist, done, pq) && EntriesBound(dist, pq) && DoneFirst(dist, done, pq)
    requires dist' == dist[v := Finite(d)] && pq' == pq + multiset{Edge(v, d)}
    ensures Queued(dist', done, pq') && EntriesBound(dist', pq') && DoneFirst(dist', done, pq')
  {
  }

  /** Lowering an unsettled station's distance along an edge from a settled one keeps the tree. */
  lemma ImproveKeepsTree(adj: Adjacency, mode: bool, start: int, dist: seq<Distance>, prev: seq<int>,
                         done: set<int>, u: int, e: Edge, d: nat, dist': seq<Distance>, prev': seq<int>)
    requires WellFormed(adj) && |dist| == |adj| && |prev| == |adj| && 0 <= u < |adj| && e in adj[u]
    requires dist' == dist[e.to := Finite(d)] && prev' == prev[e.to := u]
    requires u in done && dist[u].Finite? && d == dist[u].value + EdgeCost(e, mode)
    requires e.to !in done && e.to != start
    requires TreeInv(adj, start, dist, prev, done, mode)
    ensures TreeInv(adj, start, dist', prev', done, mode)
  {
    var v := e.to;
    forall w | 0 <= w < |adj|
      ensures TreeLink(adj, start, dist', prev', w, mode)
    {
      assert TreeLink(adj, start, dist, prev, w, mode);
      if w != v && prev[w] != -1 {
        var p := prev[w];
        assert p in done && p != v;
        var f :| f in adj[p] && f.to == w && dist[w].value == dist[p].value + EdgeCost(f, mode);
        assert f in adj[p] && f.to == w && dist'[w].value == dist'[p].value + EdgeCost(f, mode);
      }
    }
  }

  /** After the last edge of `u`, the loop invariant of the search holds again. */
  lemma RelaxDone(adj: Adjacency, mode: bool, start: int, end: int, dist: seq<Distance>, prev: seq<int>,
                  pq: multiset<Edge>, done: set<int>, u: int, du: nat,
                  wasDone: bool, dist0: seq<Distance>, prev0: seq<int>, pq0: multiset<Edge>)
    requires 0 <= u < |adj|
    requires RelaxInv(adj, mode, start, end, dist, prev, pq, done, u, du, |adj[u]|, wasDone, dist0, prev0, pq0)
    ensures SearchInv(adj, mode, start, end, dist, prev, pq, done)
  {
    forall x, e | x in done && e in adj[x]
      ensures dist[e.to].Finite? && dist[e.to].value <= dist[x].value + EdgeCost(e, mode)
    {
      if x == u {
        var j :| 0 <= j < |adj[u]| && adj[u][j] == e;
      }
    }
  }

  /**
   * The inner loop of findShortestPath over `adjList.get(u)`: each edge whose cost added to
   * `distances[u]` beats the far end's distance lowers it, makes `u` its predecessor and
   * queues the new distance. Afterwards every edge of `u` is relaxed and the search
   * invariant holds again; a station polled a second time changes nothing.
   */
  method RelaxEdges(adj: Adjacency, timeOptimized: bool, u: int, distances: seq<Distance>, previous: seq<int>,
                    pq: multiset<Edge>, ghost start: int, ghost end: int, ghost done: set<int>,
                    ghost du: nat, ghost wasDone: bool)
    returns (distances': seq<Distance>, previous': seq<int>, pq': multiset<Edge>)
    requires RelaxInv(adj, timeOptimized, start, end, distances, previous, pq, done, u, du, 0,
                      wasDone, distances, previous, pq)
    ensures SearchInv(adj, timeOptimized, start, end, distances', previous', pq', done)
    ensures wasDone ==> distances' == distances && previous' == previous && pq' == pq
  {
    distances', previous', pq' := distances, previous, pq;
    for i := 0 to |adj[u]|
      invariant RelaxInv(adj, timeOptimized, start, end, distances', previous', pq', done, u, du, i,
                         wasDone, distances, previous, pq)
    {
      var edge := adj[u][i];
      var v := edge.to;
      var weight := if timeOptimized then edge.weight else 1;
      var candidate := distances'[u].value + weight;
      if Shorter(Finite(candidate), distances'[v]) {
        RelaxImprove(adj, timeOptimized, start, end, distances', previous', pq', done, u, du, i,
                     wasDone, distances, previous, pq,
                     candidate, distances'[v := Finite(candidate)], previous'[v := u],
                     pq' + multiset{Edge(v, candidate)});
        distances' := distances'[v := Finite(candidate)];
        previous' := previous'[v := u];
        pq' := pq' + multiset{Edge(v, candidate)};
      } else {
        RelaxKeep(adj, timeOptimized, start, end, distances', previous', pq', done, u, du, i,
                  wasDone, distances, previous, pq);
      }
    }
    RelaxDone(adj, timeOptimized, start, end, distances', previous', pq', done, u, du,
              wasDone, distances, previous, pq);
  }

  /**
   * findShortestPath's search: distances start infinite (Integer.MAX_VALUE) and previous
   * at -1; the least entry is polled until the queue is empty or the target is polled,
   * and every edge out of a polled station whose cost (the edge weight, or 1 per hop when
   * not time-optimised) improves its far end lowers that distance, records the
   * predecessor and queues the new distance.
   */
  method RunDijkstra(adj: Adjacency, start: int, end: int, timeOptimized: bool)
    returns (distances: seq<Distance>, previous: seq<int>)
    requires WellFormed(adj)
    requires 0 <= start < |adj| && 0 <= end < |adj|
    ensures ShortestPathTree(adj, start, distances, previous, timeOptimized)
    ensures Optimal(adj, start, end, distances, timeOptimized)
  {
    var n := |adj|;
    distances := seq(n, _ => Infinite);
    previous := seq(n, _ => -1);
    distances := distances[start := Finite(0)];
    var pq: multiset<Edge> := multiset{Edge(start, 0)};
    ghost var done: set<int> := {};
    ghost var found := false;
    while pq != multiset{}
      invariant SearchInv(adj, timeOptimized, start, end, distances, previous, pq, done)
      invariant !found
      decreases Unsettled(n, done), |pq|
    {
      MinEntryExists(pq);
      var current :| current in pq && forall g :: g in pq ==> current.weight <= g.weight;
      ghost var queued := pq;
      pq := pq - multiset{current};
      var u := current.to;

      if u == end {
        TargetPoppedIsOptimal(adj, timeOptimized, start, end, distances, done, queued, current);
        found := true;
        break;
      }

      PollStartsRelaxing(adj, timeOptimized, start, end, distances, previous, queued, done, current);
      ghost var wasDone := u in done;
      ghost var du := distances[u].value;
      ghost var done0 := done;
      done := done + {u};
      ghost var dist0, prev0, pq0 := distances, previous, pq;
      distances, previous, pq := RelaxEdges(adj, timeOptimized, u, distances, previous, pq,
                                            start, end, done, du, wasDone);
      SettlingShrinks(n, done0, u);
    }
    if !found {
      EmptyQueueMeansUnreachable(adj, timeOptimized, start, end, distances, done, pq);
    }
  }

  /** One step of the walk back: the predecessor of the route's head extends the route. */
  lemma TraceStep(adj: Adjacency, start: int, distances: seq<Distance>, previous: seq<int>,
                  timeOptimized: bool, path: seq<int>, at: int)
    requires WellFormed(adj) && ShortestPathTree(adj, start, distances, previous, timeOptimized)
    requires IsRoute(adj, path) && 0 <= at < |adj| && at == previous[path[0]]
    ensures IsRoute(adj, [at] + path) && distances[path[0]].Finite? && distances[at].Finite?
    ensures distances[at].value < distances[path[0]].value
    ensures CostsAgree(adj, timeOptimized) ==>
              RouteCost(adj, [at] + path, timeOptimized) + distances[at].value ==
              RouteCost(adj, path, timeOptimized) + distances[path[0]].value
  {
    var next := path[0];
    assert TreeLink(adj, start, distances, previous, next, timeOptimized);
    var e :| e in adj[at] && e.to == next &&
             distances[next].value == distances[at].value + EdgeCost(e, timeOptimized);
    assert Adjacent(adj, at, next);
    IsRoutePrepend(adj, at, path);
    RouteCostPrepend(adj, at, path, timeOptimized);
    if CostsAgree(adj, timeOptimized) {
      StepCostOfEdge(adj, at, e, timeOptimized);
    }
  }

  /**
   * The walk `for (at = end; at != -1; at = previous[at]) path.add(at)` followed by
   * `Collections.reverse(path)`: stations are put in front as they are met. The walk
   * reaches the start exactly when the target was reached; otherwise the route is the
   * target alone. When the two cost notions agree, the route costs the target's distance.
   */
  method TracePath(adj: Adjacency, start: int, end: int, ghost distances: seq<Distance>, previous: seq<int>,
                   ghost timeOptimized: bool)
    returns (path: seq<int>)
    requires WellFormed(adj) && ShortestPathTree(adj, start, distances, previous, timeOptimized)
    requires 0 <= end < |adj|
    ensures |path| >= 1 && path[|path| - 1] == end && InRange(adj, path)
    ensures path[0] == start <==> distances[end].Finite?
    ensures path[0] != start ==> path == [end]
    ensures start == end ==> path == [end]
    ensures path[0] == start ==> Connects(adj, path, start, end)
    ensures path[0] == start && CostsAgree(adj, timeOptimized) ==>
              RouteCost(adj, path, timeOptimized) == distances[end].value
  {
    path := [];
    var at := end;
    while at != -1
      invariant -1 <= at < |adj|
      invariant path == [] ==> at == end
      invariant path != [] ==> IsRoute(adj, path) && path[|path| - 1] == end && at == previous[path[0]]
      invariant path != [] && distances[end].Infinite? ==> path == [end]
      invariant path != [] && start == end ==> path == [end] && at == -1
      invariant path != [] && distances[end].Finite? ==>
                  distances[path[0]].Finite? &&
                  (CostsAgree(adj, timeOptimized) ==>
                     RouteCost(adj, path, timeOptimized) + distances[path[0]].value == distances[end].value)
      decreases if at == -1 then 0 else if distances[at].Finite? then distances[at].value + 2 else 1
    {
      assert TreeLink(adj, start, distances, previous, at, timeOptimized);
      if path != [] {
        TraceStep(adj, start, distances, previous, timeOptimized, path, at);
      }
      path := [at] + path;
      at := previous[at];
    }
    assert TreeLink(adj, start, distances, previous, path[0], timeOptimized);
  }
}
