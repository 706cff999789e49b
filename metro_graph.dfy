/**
 * The MetroGraph class of MetroRouteOptimization.java: the station store (adjacency
 * lists, the name-to-id map and the id-to-name array), the route cache in front of the
 * Dijkstra search, path distances, the fares and bills derived from cached routes, and
 * the enumeration of alternative routes.
 */
module MetroGraphs {
  import opened Wrappers
  import opened Distances
  import opened MetroPaths
  import opened MetroDijkstra
  import opened Fares
  import opened Passengers
  import opened Alternatives

  /** MAX_ALTERNATIVE_ROUTES: the shortest route plus at most two alternatives are shown. */
  const MaxAlternativeRoutes: int := 3

  /** createCacheKey: the two station names joined by a bar. */
  function CacheKey(start: string, end: string): (key: string)
    ensures |key| == |start| + 1 + |end| && key[|start|] == '|'
    ensures key[..|start|] == start && key[|start| + 1..] == end
  {
    start + "|" + end
  }

  /** Names without a bar give distinct keys for distinct name pairs. */
  lemma CacheKeyInjective(a: string, b: string, c: string, d: string)
    requires '|' !in a && '|' !in c
    ensures CacheKey(a, b) == CacheKey(c, d) <==> a == c && b == d
  {
    var k1, k2 := CacheKey(a, b), CacheKey(c, d);
    if k1 == k2 {
      if |a| < |c| {
        assert false;
      } else if |c| < |a| {
        assert false;
      }
    }
  }

  /**
   * What a cache entry was computed from: the two station ids and the search mode. The key
   * itself carries only the names, so the mode is recorded here as ghost state.
   */
  datatype CacheOrigin = CacheOrigin(from: int, to: int, timeOptimized: bool)

  /** The route cached for an origin runs from its first station to its second. */
  ghost predicate RoutesFor(adj: Adjacency, route: seq<int>, o: CacheOrigin)
  {
    0 <= o.from < |adj| && 0 <= o.to < |adj| && Connects(adj, route, o.from, o.to)
  }

  /**
   * The two collections findAlternativeRoutes hands to every level of its search and that
   * each level changes in place: the path walked so far and the set of routes collected.
   */
  class RouteSearch {
    var currentPath: seq<int>
    var allRoutes: set<seq<int>>

    constructor ()
      ensures currentPath == [] && allRoutes == {}
    {
      currentPath := [];
      allRoutes := {};
    }
  }

  class MetroGraph {
    const numStations: nat
    var adjList: seq<seq<Edge>>
    var stationMap: map<string, int>
    /** `stationNames`: None where no name was assigned (a null entry of the Java array). */
    const stationNames: array<Option<string>>
    var routeCache: map<string, seq<int>>
    ghost var cacheOrigin: map<string, CacheOrigin>

    /**
     * The store's invariant: one list and one name slot per station, edges inserted in both
     * directions with positive weights, ids in range, and every cached route a route
     * between the stations it was computed for.
     */
    ghost predicate Valid()
      reads this, stationNames
    {
      |adjList| == numStations && stationNames.Length == numStations &&
      WellFormed(adjList) && Symmetric(adjList) &&
      (forall name :: name in stationMap ==> 0 <= stationMap[name] < numStations) &&
      cacheOrigin.Keys == routeCache.Keys &&
      forall key :: key in routeCache ==> RoutesFor(adjList, routeCache[key], cacheOrigin[key])
    }

    /** The name string concatenation produces for a station: "null" when it has none. */
    function NameOf(id: int): string
      reads stationNames
      requires 0 <= id < stationNames.Length
    {
      match stationNames[id]
      case Some(name) => name
      case None => "null"
    }

    /** The key findShortestPath looks up for a pair of station ids. */
    function KeyOf(start: int, end: int): string
      reads stationNames
      requires 0 <= start < stationNames.Length && 0 <= end < stationNames.Length
    {
      CacheKey(NameOf(start), NameOf(end))
    }

    /** Distinct stations have distinct names, and no name holds the key separator. */
    ghost predicate KeyableNames()
      reads stationNames
    {
      (forall i, j :: 0 <= i < j < stationNames.Length ==> NameOf(i) != NameOf(j)) &&
      forall i :: 0 <= i < stationNames.Length ==> '|' !in NameOf(i)
    }

    /**
     * Every cache entry sits under the key of the stations it was computed for, and is
     * still a shortest route for the mode it was computed in (where the route's
     * step-by-step cost and the search's edge costs agree).
     */
    ghost predicate CacheSound()
      reads this, stationNames
      requires Valid()
    {
      forall key :: key in routeCache ==>
        var o := cacheOrigin[key];
        key == KeyOf(o.from, o.to) &&
        (CostsAgree(adjList, o.timeOptimized) ==> Shortest(adjList, routeCache[key], o.from, o.to, o.timeOptimized))
    }

    /** `new MetroGraph(numStations)`: empty lists, no names, an empty cache. */
    constructor (n: nat)
      ensures Valid() && CacheSound() && numStations == n
      ensures adjList == seq(n, _ => []) && stationMap == map[] && routeCache == map[]
      ensures fresh(stationNames) && forall i :: 0 <= i < n ==> stationNames[i].None?
    {
      numStations := n;
      adjList := seq(n, _ => []);
      stationMap := map[];
      stationNames := new Option<string>[n](_ => None);
      routeCache := map[];
      cacheOrigin := map[];
    }

    /** addStation: the name now maps to the id and the id's slot holds the name. */
    method AddStation(name: string, id: int)
      requires Valid() && 0 <= id < numStations
      modifies this, stationNames
      ensures Valid()
      ensures stationMap == old(stationMap)[name := id]
      ensures stationNames[..] == old(stationNames[..])[id := Some(name)]
      ensures adjList == old(adjList) && routeCache == old(routeCache) && cacheOrigin == old(cacheOrigin)
    {
      stationMap := stationMap[name := id];
      stationNames[id] := Some(name);
    }

    /**
     * addEdge: `Edge(v, weight)` is appended to u's list and `Edge(u, weight)` to v's; no
     * other list changes, so the lists stay symmetric and every cached route stays a route.
     */
    method AddEdge(u: int, v: int, weight: int)
      requires Valid() && 0 <= u < numStations && 0 <= v < numStations && weight > 0
      modifies this
      ensures Valid()
      ensures var a1 := old(adjList)[u := old(adjList)[u] + [Edge(v, weight)]];
              adjList == a1[v := a1[v] + [Edge(u, weight)]]
      ensures forall w :: 0 <= w < numStations && w != u && w != v ==> adjList[w] == old(adjList)[w]
      ensures Extends(old(adjList), adjList)
      ensures stationMap == old(stationMap) && routeCache == old(routeCache) && cacheOrigin == old(cacheOrigin)
    {
      ghost var adj := adjList;
      adjList := adjList[u := adjList[u] + [Edge(v, weight)]];
      adjList := adjList[v := adjList[v] + [Edge(u, weight)]];
      AddEdgeKeepsShape(adj, u, v, weight, adjList);
      forall key | key in routeCache
        ensures RoutesFor(adjList, routeCache[key], cacheOrigin[key])
      {
        ExtendKeepsRoute(adj, adjList, routeCache[key], true);
      }
    }

    /** A cache hit returns the stored route, whatever the mode, and changes nothing. */
    ghost predicate HitAnswer(cache0: map<string, seq<int>>, origin0: map<string, CacheOrigin>,
                              start: int, end: int, path: Option<seq<int>>)
      reads this, stationNames
      requires 0 <= start < stationNames.Length && 0 <= end < stationNames.Length
    {
      KeyOf(start, end) in cache0 ==> path == Some(cache0[KeyOf(start, end)]) && routeCache == cache0 && cacheOrigin == origin0
    }

    /**
     * A cache miss returns nothing exactly when no route exists, and otherwise a route from
     * `start` to `end`, shortest for the mode wherever costs agree, recorded as computed
     * for these stations in this mode; nothing else is added to the cache.
     */
    ghost predicate MissAnswer(cache0: map<string, seq<int>>, start: int, end: int, timeOptimized: bool,
                               path: Option<seq<int>>)
      reads this, stationNames
      requires Valid() && 0 <= start < numStations && 0 <= end < numStations
    {
      KeyOf(start, end) !in cache0 ==>
        (path.None? <==> forall q :: !Connects(adjList, q, start, end)) &&
        routeCache.Keys <= cache0.Keys + {KeyOf(start, end)} &&
        (path.Some? ==>
           KeyOf(start, end) in cacheOrigin && cacheOrigin[KeyOf(start, end)] == CacheOrigin(start, end, timeOptimized) &&
           Connects(adjList, path.value, start, end) &&
           (CostsAgree(adjList, timeOptimized) ==> Shortest(adjList, path.value, start, end, timeOptimized)))
    }

    /** The cache holds the pair's key exactly when a route is returned, and holds that route. */
    ghost predicate Stored(start: int, end: int, path: Option<seq<int>>)
      reads this, stationNames
      requires 0 <= start < stationNames.Length && 0 <= end < stationNames.Length
    {
      (path.Some? <==> KeyOf(start, end) in routeCache) &&
      (path.Some? ==> routeCache[KeyOf(start, end)] == path.value)
    }

    /**
     * The private findShortestPath(int, int, boolean): look the name pair up in the cache;
     * otherwise run the search, walk back from `end`, and cache and return the route when
     * the walk reached `start`.
     */
    method FindShortestPathById(start: int, end: int, timeOptimized: bool) returns (path: Option<seq<int>>)
      requires Valid() && 0 <= start < numStations && 0 <= end < numStations
      modifies this
      ensures Valid() && adjList == old(adjList) && stationMap == old(stationMap)
      ensures Keeps(old(routeCache), old(cacheOrigin))
      ensures HitAnswer(old(routeCache), old(cacheOrigin), start, end, path)
      ensures MissAnswer(old(routeCache), start, end, timeOptimized, path)
      ensures Stored(start, end, path)
      ensures old(CacheSound()) ==> CacheSound()
    {
      var key := CacheKey(NameOf(start), NameOf(end));
      if key in routeCache {
        return Some(routeCache[key]);
      }
      path := SearchAndCache(key, start, end, timeOptimized);
    }

    /** The cache miss: run the search, walk back from `end`, and cache the route when the walk reached `start`. */
    method SearchAndCache(key: string, start: int, end: int, timeOptimized: bool) returns (path: Option<seq<int>>)
      requires Valid() && 0 <= start < numStations && 0 <= end < numStations
      requires key == KeyOf(start, end) && key !in routeCache
      modifies this
      ensures Valid() && adjList == old(adjList) && stationMap == old(stationMap)
      ensures Keeps(old(routeCache), old(cacheOrigin))
      ensures MissAnswer(old(routeCache), start, end, timeOptimized, path)
      ensures Stored(start, end, path)
      ensures old(CacheSound()) ==> CacheSound()
    {
      var p := SearchAndTrace(adjList, start, end, timeOptimized);
      if p[0] == start {
        CacheRoute(key, start, end, timeOptimized, p);
        path := Some(p);
      } else {
        path := None;
      }
    }

    /** `routeCache.put(cacheKey, path)` for a route just found, with the ghost record of its origin. */
    method CacheRoute(key: string, start: int, end: int, timeOptimized: bool, p: seq<int>)
      requires Valid() && 0 <= start < numStations && 0 <= end < numStations
      requires key == KeyOf(start, end) && Connects(adjList, p, start, end)
      requires CostsAgree(adjList, timeOptimized) ==> Shortest(adjList, p, start, end, timeOptimized)
      modifies this
      ensures Valid() && adjList == old(adjList) && stationMap == old(stationMap)
      ensures routeCache == old(routeCache)[key := p]
      ensures cacheOrigin == old(cacheOrigin)[key := CacheOrigin(start, end, timeOptimized)]
      ensures old(CacheSound()) ==> CacheSound()
    {
      routeCache := routeCache[key := p];
      cacheOrigin := cacheOrigin[key := CacheOrigin(start, end, timeOptimized)];
    }

    /** The cache entries present before are still there, unchanged. */
    ghost predicate Keeps(cache0: map<string, seq<int>>, origin0: map<string, CacheOrigin>)
      reads this
    {
      Kept(cache0, origin0, routeCache, cacheOrigin)
    }

    /** A cache hit under sound keys is an entry computed for the very stations asked for. */
    lemma CacheHitConnects(start: int, end: int)
      requires Valid() && KeyableNames() && CacheSound()
      requires 0 <= start < numStations && 0 <= end < numStations && KeyOf(start, end) in routeCache
      ensures cacheOrigin[KeyOf(start, end)].from == start && cacheOrigin[KeyOf(start, end)].to == end
      ensures Connects(adjList, routeCache[KeyOf(start, end)], start, end)
    {
      var o := cacheOrigin[KeyOf(start, end)];
      assert RoutesFor(adjList, routeCache[KeyOf(start, end)], o);
      CacheKeyInjective(NameOf(start), NameOf(end), NameOf(o.from), NameOf(o.to));
    }

    /** The public findShortestPath(String, String, boolean): the search between two named stations. */
    method FindShortestPath(startName: string, endName: string, timeOptimized: bool) returns (path: Option<seq<int>>)
      requires Valid() && startName in stationMap && endName in stationMap
      modifies this
      ensures Valid() && adjList == old(adjList) && stationMap == old(stationMap)
      ensures Keeps(old(routeCache), old(cacheOrigin))
      ensures HitAnswer(old(routeCache), old(cacheOrigin), stationMap[startName], stationMap[endName], path)
      ensures MissAnswer(old(routeCache), stationMap[startName], stationMap[endName], timeOptimized, path)
      ensures Stored(stationMap[startName], stationMap[endName], path)
      ensures old(CacheSound()) ==> CacheSound()
    {
      path := FindShortestPathById(stationMap[startName], stationMap[endName], timeOptimized);
    }

    /** The inner loop of calculatePathDistance: the weight of the first edge to `next`, or 0. */
    static method FirstMatchWeight(edges: seq<Edge>, next: int) returns (weight: int)
      ensures FirstEdgeTo(edges, next).None? ==> weight == 0
      ensures FirstEdgeTo(edges, next).Some? ==> weight == FirstEdgeTo(edges, next).value.weight
    {
      var j := 0;
      while j < |edges|
        invariant 0 <= j <= |edges|
        invariant FirstEdgeTo(edges[j..], next) == FirstEdgeTo(edges, next)
      {
        if edges[j].to == next {
          return edges[j].weight;
        }
        assert edges[j..][1..] == edges[j + 1..];
        j := j + 1;
      }
      return 0;
    }

    /**
     * calculatePathDistance: for each pair of consecutive stations, the weight of the first
     * edge between them, summed; a pair without an edge adds nothing.
     */
    method CalculatePathDistance(path: seq<int>) returns (distance: int)
      requires Valid() && InRange(adjList, path)
      ensures distance == PathDistance(adjList, path)
    {
      distance := 0;
      var i := 0;
      while i < |path| - 1
        invariant 0 <= i && (|path| == 0 ==> i == 0 && distance == 0)
        invariant |path| > 0 ==> i <= |path| - 1 && distance == PathDistance(adjList, path[..i + 1])
      {
        var w := FirstMatchWeight(adjList[path[i]], path[i + 1]);
        assert path[..i + 2][..i + 1] == path[..i + 1];
        distance := distance + w;
        i := i + 1;
      }
      if |path| > 0 {
        assert path[..i + 1] == path;
      }
    }

    /** The fare a cached route costs, or nothing when no route is cached for the pair. */
    function CachedFare(start: int, end: int, isStudent: bool, isSenior: bool): (fare: real)
      reads this, stationNames
      requires Valid() && 0 <= start < numStations && 0 <= end < numStations
      ensures IsHalfMultiple(fare) && 0.0 <= fare
      ensures KeyOf(start, end) !in routeCache ==> fare == 0.0
    {
      var key := KeyOf(start, end);
      RouteFare(adjList, if key in routeCache then Some(routeCache[key]) else None, isStudent, isSenior)
    }

    /**
     * The public calculateFareWithDiscounts(String, String, boolean, boolean): the fare of the
     * time-optimised route between the two named stations, looked up through the cache
     * (findShortestPath with the same arguments says which route that is).
     */
    method CalculateFareWithDiscounts(startName: string, endName: string, isStudent: bool, isSenior: bool)
      returns (fare: real)
      requires Valid() && startName in stationMap && endName in stationMap
      modifies this
      ensures Valid() && adjList == old(adjList) && stationMap == old(stationMap)
      ensures Keeps(old(routeCache), old(cacheOrigin))
      ensures KeyOf(stationMap[startName], stationMap[endName]) in old(routeCache) ==>
                routeCache == old(routeCache) && cacheOrigin == old(cacheOrigin)
      ensures KeyOf(stationMap[startName], stationMap[endName]) in routeCache ||
                forall q :: !Connects(adjList, q, stationMap[startName], stationMap[endName])
      ensures fare == CachedFare(stationMap[startName], stationMap[endName], isStudent, isSenior)
      ensures FreshTimeRoute(old(routeCache), stationMap[startName], stationMap[endName])
      ensures FreshFareIsLeast(old(routeCache), stationMap[startName], stationMap[endName], fare, isStudent, isSenior)
      ensures old(CacheSound()) ==> CacheSound()
    {
      var path := FindShortestPath(startName, endName, true);
      fare := RouteFare(adjList, path, isStudent, isSenior);
      var start, end := stationMap[startName], stationMap[endName];
      if KeyOf(start, end) !in old(routeCache) && NoParallel(adjList) && path.Some? {
        forall q | Connects(adjList, q, start, end)
          ensures fare <= Fare(PathDistance(adjList, q), isStudent, isSenior)
        {
          ShortestFareIsLeast(adjList, path.value, start, end, isStudent, isSenior, q);
        }
      }
    }

    /**
     * When the pair was not cached before and no list holds two edges to one station,
     * `fare` is no more than the fare of any route between the two stations: the call
     * priced the time-optimised shortest route.
     */
    ghost predicate FreshFareIsLeast(cache0: map<string, seq<int>>, start: int, end: int, fare: real,
                                     isStudent: bool, isSenior: bool)
      reads this, stationNames
      requires 0 <= start < stationNames.Length && 0 <= end < stationNames.Length
    {
      KeyOf(start, end) !in cache0 && NoParallel(adjList) ==>
        forall q :: Connects(adjList, q, start, end) ==> fare <= Fare(PathDistance(adjList, q), isStudent, isSenior)
    }

    /**
     * A route the call itself put in the cache for the pair was computed for these very
     * stations in time-optimised mode.
     */
    ghost predicate FreshTimeRoute(cache0: map<string, seq<int>>, start: int, end: int)
      reads this, stationNames
      requires 0 <= start < stationNames.Length && 0 <= end < stationNames.Length
    {
      KeyOf(start, end) !in cache0 && KeyOf(start, end) in routeCache ==>
        KeyOf(start, end) in cacheOrigin && cacheOrigin[KeyOf(start, end)] == CacheOrigin(start, end, true)
    }

    /**
     * With sound keys, a cached time-optimised route and no parallel edges, the cached
     * fare is no more than the fare of any route between the two stations.
     */
    lemma CachedFareIsLeast(start: int, end: int, isStudent: bool, isSenior: bool, q: seq<int>)
      requires Valid() && KeyableNames() && CacheSound()
      requires 0 <= start < numStations && 0 <= end < numStations && KeyOf(start, end) in routeCache
      requires cacheOrigin[KeyOf(start, end)].timeOptimized && NoParallel(adjList)
      requires Connects(adjList, q, start, end)
      ensures CachedFare(start, end, isStudent, isSenior) <= Fare(PathDistance(adjList, q), isStudent, isSenior)
    {
      CacheHitConnects(start, end);
      var p := routeCache[KeyOf(start, end)];
      assert Shortest(adjList, p, start, end, true);
      ShortestFareIsLeast(adjList, p, start, end, isStudent, isSenior, q);
    }

    /** generateBill: the passenger's bill becomes the fare between the two stations. */
    method GenerateBill(passenger: Passenger, startName: string, endName: string)
      requires Valid() && startName in stationMap && endName in stationMap
      modifies this, passenger
      ensures Valid() && adjList == old(adjList) && stationMap == old(stationMap)
      ensures Keeps(old(routeCache), old(cacheOrigin))
      ensures KeyOf(stationMap[startName], stationMap[endName]) in routeCache ||
              forall q :: !Connects(adjList, q, stationMap[startName], stationMap[endName])
      ensures passenger.isStudent == old(passenger.isStudent)
      ensures passenger.billAmount ==
                CachedFare(stationMap[startName], stationMap[endName], passenger.isStudent, passenger.isSenior)
      ensures FreshTimeRoute(old(routeCache), stationMap[startName], stationMap[endName])
      ensures FreshFareIsLeast(old(routeCache), stationMap[startName], stationMap[endName],
                               passenger.billAmount, passenger.isStudent, passenger.isSenior)
      ensures old(CacheSound()) ==> CacheSound()
    {
      var fare := CalculateFareWithDiscounts(startName, endName, passenger.isStudent, passenger.isSenior);
      passenger.SetBillAmount(fare);
    }

    /**
     * findMinimalTransferPath: the hop-counting route between the two stations, then the
     * bill. Iterating over a missing route throws before the bill is made (`completed` is
     * false). The bill is priced on whatever the cache holds for the pair, so when the pair
     * was not cached before, it is priced on the minimal-transfer route just cached.
     */
    method FindMinimalTransferPath(passenger: Passenger, startName: string, endName: string)
      returns (completed: bool)
      requires Valid() && startName in stationMap && endName in stationMap
      modifies this, passenger
      ensures Valid() && adjList == old(adjList) && stationMap == old(stationMap)
      ensures Keeps(old(routeCache), old(cacheOrigin))
      ensures passenger.isStudent == old(passenger.isStudent)
      ensures completed <==> KeyOf(stationMap[startName], stationMap[endName]) in routeCache
      ensures !completed ==>
                passenger.billAmount == old(passenger.billAmount) &&
                forall q :: !Connects(adjList, q, stationMap[startName], stationMap[endName])
      ensures completed ==>
                passenger.billAmount ==
                  CachedFare(stationMap[startName], stationMap[endName], passenger.isStudent, passenger.isSenior)
      ensures completed && KeyOf(stationMap[startName], stationMap[endName]) !in old(routeCache) ==>
                !cacheOrigin[KeyOf(stationMap[startName], stationMap[endName])].timeOptimized
      ensures old(CacheSound()) ==> CacheSound()
    {
      var path := FindShortestPath(startName, endName, false);
      if path.None? {
        return false;
      }
      GenerateBill(passenger, startName, endName);
      return true;
    }

    /**
     * isOnPath: whether the midway station occurs on the hop-counting route from start to
     * end; None when there is no such route (iterating over it throws).
     */
    method IsOnPath(startName: string, midWayName: string, endName: string) returns (onPath: Option<bool>)
      requires Valid() && startName in stationMap && midWayName in stationMap && endName in stationMap
      modifies this
      ensures Valid() && adjList == old(adjList) && stationMap == old(stationMap)
      ensures Keeps(old(routeCache), old(cacheOrigin))
      ensures onPath.Some? <==> KeyOf(stationMap[startName], stationMap[endName]) in routeCache
      ensures onPath.None? ==> forall q :: !Connects(adjList, q, stationMap[startName], stationMap[endName])
      ensures onPath.Some? ==>
                (onPath.value <==> stationMap[midWayName] in routeCache[KeyOf(stationMap[startName], stationMap[endName])])
      ensures KeyOf(stationMap[startName], stationMap[endName]) !in old(routeCache) && onPath.Some? ==>
                cacheOrigin[KeyOf(stationMap[startName], stationMap[endName])] ==
                  CacheOrigin(stationMap[startName], stationMap[endName], false)
      ensures old(CacheSound()) ==> CacheSound()
    {
      var originalPath := FindShortestPath(startName, endName, false);
      var mid := stationMap[midWayName];
      if originalPath.None? {
        return None;
      }
      var found := Occurs(originalPath.value, mid);
      return Some(found);
    }

    /** The loop of isOnPath over the route: whether `mid` is one of its stations. */
    static method Occurs(route: seq<int>, mid: int) returns (found: bool)
      ensures found <==> mid in route
    {
      var i := 0;
      while i < |route|
        invariant 0 <= i <= |route| && mid !in route[..i]
      {
        if route[i] == mid {
          return true;
        }
        assert route[..i + 1] == route[..i] + [route[i]];
        i := i + 1;
      }
      assert route[..i] == route;
      return false;
    }

    /**
     * changeRoute: the midway check only prints a warning, the journey from the midway
     * station is billed as a minimal-transfer path, and then the bill is overwritten with
     * the fare from start to midway plus the fare from midway to the new destination.
     * `completed` is false when one of the calls throws on a missing route, in which case
     * the bill is as before.
     */
    method ChangeRoute(passenger: Passenger, startName: string, midWayName: string, newDestName: string)
      returns (completed: bool)
      requires Valid() && startName in stationMap && midWayName in stationMap && newDestName in stationMap
      modifies this, passenger
      ensures Valid() && adjList == old(adjList) && stationMap == old(stationMap)
      ensures Keeps(old(routeCache), old(cacheOrigin))
      ensures passenger.isStudent == old(passenger.isStudent)
      ensures completed <==>
                KeyOf(stationMap[startName], stationMap[newDestName]) in routeCache &&
                KeyOf(stationMap[midWayName], stationMap[newDestName]) in routeCache
      ensures !completed ==>
                (forall q :: !Connects(adjList, q, stationMap[startName], stationMap[newDestName])) ||
                (forall q :: !Connects(adjList, q, stationMap[midWayName], stationMap[newDestName]))
      ensures !completed ==> passenger.billAmount == old(passenger.billAmount)
      ensures completed ==>
                passenger.billAmount ==
                  CachedFare(stationMap[startName], stationMap[midWayName], passenger.isStudent, passenger.isSenior) +
                  CachedFare(stationMap[midWayName], stationMap[newDestName], passenger.isStudent, passenger.isSenior)
      ensures old(CacheSound()) ==> CacheSound()
    {
      ghost var cache0, origin0, sound0 := routeCache, cacheOrigin, CacheSound();
      var onPath := IsOnPath(startName, midWayName, newDestName);
      if onPath.None? {
        return false;
      }
      // a midway station off the route only prints a warning
      ghost var cache1, origin1 := routeCache, cacheOrigin;
      completed := FindMinimalTransferPath(passenger, midWayName, newDestName);
      KeptTransitive(cache0, origin0, cache1, origin1, routeCache, cacheOrigin);
      if !completed {
        return;
      }
      ghost var cache2, origin2 := routeCache, cacheOrigin;
      BillSplitJourney(passenger, startName, midWayName, newDestName);
      KeptTransitive(cache0, origin0, cache2, origin2, routeCache, cacheOrigin);
    }

    /**
     * The last statement of changeRoute: the bill becomes the fare from start to midway plus
     * the fare from midway to the destination. The second pair is already cached, so its
     * lookup leaves the cache as the first lookup left it.
     */
    method BillSplitJourney(passenger: Passenger, startName: string, midWayName: string, newDestName: string)
      requires Valid() && startName in stationMap && midWayName in stationMap && newDestName in stationMap
      requires KeyOf(stationMap[midWayName], stationMap[newDestName]) in routeCache
      modifies this, passenger
      ensures Valid() && adjList == old(adjList) && stationMap == old(stationMap)
      ensures Keeps(old(routeCache), old(cacheOrigin))
      ensures passenger.isStudent == old(passenger.isStudent)
      ensures passenger.billAmount ==
                CachedFare(stationMap[startName], stationMap[midWayName], passenger.isStudent, passenger.isSenior) +
                CachedFare(stationMap[midWayName], stationMap[newDestName], passenger.isStudent, passenger.isSenior)
      ensures old(CacheSound()) ==> CacheSound()
    {
      var st, se := passenger.isStudent, passenger.isSenior;
      var toMid := CalculateFareWithDiscounts(startName, midWayName, st, se);
      ghost var cache1, origin1 := routeCache, cacheOrigin;
      var fromMid := CalculateFareWithDiscounts(midWayName, newDestName, st, se);
      assert routeCache == cache1 && cacheOrigin == origin1;
      passenger.SetBillAmount(toMid + fromMid);
    }

    /**
     * findAllPathsDFS: mark `current`, extend the path with it, and either collect the path
     * (at the destination, when within the deviation) or descend into every neighbour not
     * yet on the path; then undo both changes. The routes it collects are exactly the
     * simple routes that continue the path from `current` to the destination within the
     * deviation of `shortestDistance`.
     */
    method FindAllPathsDFS(current: int, destination: int, visited: array<bool>, search: RouteSearch,
                           shortestDistance: int)
      requires Valid() && 0 <= current < numStations && 0 <= destination < numStations
      requires visited.Length == numStations
      requires InRange(adjList, search.currentPath) && Distinct(search.currentPath)
      requires current !in search.currentPath
      requires forall v :: 0 <= v < numStations ==> (visited[v] <==> v in search.currentPath)
      modifies visited, search
      ensures visited[..] == old(visited[..]) && search.currentPath == old(search.currentPath)
      ensures forall r :: r in search.allRoutes <==>
                r in old(search.allRoutes) || Found(adjList, old(search.currentPath), current, destination, shortestDistance, r)
      decreases numStations - |search.currentPath|
    {
      ghost var path0, visited0, routes0 := search.currentPath, visited[..], search.allRoutes;
      ghost var path1 := path0 + [current];
      assert Distinct(path1) && InRange(adjList, path1);
      DistinctBound(path1, numStations);
      if |search.currentPath| > numStations {
        assert false;
        return;
      }
      visited[current] := true;
      search.currentPath := search.currentPath + [current];
      if current == destination {
        var currentDistance := CalculatePathDistance(search.currentPath);
        if 2 * currentDistance <= 3 * shortestDistance {
          search.allRoutes := search.allRoutes + {search.currentPath};
        }
        forall r
          ensures r in search.allRoutes <==> r in routes0 || Found(adjList, path0, current, destination, shortestDistance, r)
        {
          FoundAtDestination(adjList, path0, destination, shortestDistance, r);
        }
      } else {
        ExploreNeighbours(current, destination, visited, search, shortestDistance);
        forall r
          ensures r in search.allRoutes <==> r in routes0 || Found(adjList, path0, current, destination, shortestDistance, r)
        {
          FoundStep(adjList, path0, current, destination, shortestDistance, r);
        }
      }
      search.currentPath := search.currentPath[..|search.currentPath| - 1];
      visited[current] := false;
      assert visited[..] == visited0;
    }

    /** The loop of findAllPathsDFS over the edges of `current`, the last station on the path. */
    method ExploreNeighbours(current: int, destination: int, visited: array<bool>, search: RouteSearch,
                             shortestDistance: int)
      requires Valid() && 0 <= current < numStations && 0 <= destination < numStations
      requires visited.Length == numStations
      requires InRange(adjList, search.currentPath) && Distinct(search.currentPath)
      requires search.currentPath != [] && search.currentPath[|search.currentPath| - 1] == current
      requires forall v :: 0 <= v < numStations ==> (visited[v] <==> v in search.currentPath)
      modifies visited, search
      ensures visited[..] == old(visited[..]) && search.currentPath == old(search.currentPath)
      ensures forall r :: r in search.allRoutes <==>
                r in old(search.allRoutes) ||
                exists j :: 0 <= j < |adjList[current]| && adjList[current][j].to !in old(search.currentPath) &&
                            Found(adjList, old(search.currentPath), adjList[current][j].to, destination, shortestDistance, r)
      decreases numStations - |search.currentPath| + 1, 0
    {
      var edges := adjList[current];
      ghost var path, routes0 := search.currentPath, search.allRoutes;
      DistinctBound(path, numStations);
      ghost var marks := visited[..];
      var i := 0;
      while i < |edges|
        invariant 0 <= i <= |edges|
        invariant visited[..] == marks && search.currentPath == path
        invariant forall r :: r in search.allRoutes <==>
                    r in routes0 ||
                    exists j :: 0 <= j < i && edges[j].to !in path && Found(adjList, path, edges[j].to, destination, shortestDistance, r)
      {
        var next := edges[i].to;
        ghost var routes1 := search.allRoutes;
        if !visited[next] {
          assert edges[i] in adjList[current];
          FindAllPathsDFS(next, destination, visited, search, shortestDistance);
        }
        forall r | r in search.allRoutes
          ensures r in routes0 ||
                  exists j :: 0 <= j < i + 1 && edges[j].to !in path && Found(adjList, path, edges[j].to, destination, shortestDistance, r)
        {
          if r !in routes1 {
            assert edges[i].to !in path && Found(adjList, path, edges[i].to, destination, shortestDistance, r);
          }
        }
        i := i + 1;
      }
    }

    /** `new ArrayList<>(allRoutes)`: the collected routes in the set's iteration order, which is left open. */
    static method RoutesInSomeOrder(routes: set<seq<int>>) returns (list: seq<seq<int>>)
      ensures Distinct(list) && forall r :: r in list <==> r in routes
    {
      list := [];
      var rest := routes;
      while rest != {}
        invariant forall r :: r in routes <==> r in list || r in rest
        invariant forall r :: r in list ==> r !in rest
        invariant Distinct(list)
        decreases |rest|
      {
        var r :| r in rest;
        list := list + [r];
        rest := rest - {r};
      }
    }

    /**
     * The display loop of findAlternativeRoutes: stop once MAX_ALTERNATIVE_ROUTES - 1 routes
     * are shown; show a route when its distance is within the deviation. The routes shown
     * are the first ones of the list that pass the test.
     */
    method SelectAlternatives(sortedRoutes: seq<seq<int>>, shortestDistance: int) returns (shown: seq<seq<int>>)
      requires Valid() && AllInRange(adjList, sortedRoutes)
      ensures var passing := WithinLimit(adjList, sortedRoutes, shortestDistance);
              shown == passing[..if |passing| < MaxAlternativeRoutes - 1 then |passing| else MaxAlternativeRoutes - 1]
    {
      shown := [];
      var routesShown := 0;
      var i := 0;
      while i < |sortedRoutes|
        invariant 0 <= i <= |sortedRoutes|
        invariant routesShown == |shown| <= MaxAlternativeRoutes - 1
        invariant shown == WithinLimit(adjList, sortedRoutes[..i], shortestDistance)
      {
        if routesShown >= MaxAlternativeRoutes - 1 {
          break;
        }
        var route := sortedRoutes[i];
        var distance := CalculatePathDistance(route);
        ghost var prefix := sortedRoutes[..i + 1];
        assert prefix[..i] == sortedRoutes[..i] && prefix[i] == route;
        assert WithinLimit(adjList, prefix, shortestDistance) ==
               WithinLimit(adjList, sortedRoutes[..i], shortestDistance) +
               if WithinDeviation(distance, shortestDistance) then [route] else [];
        if 2 * distance <= 3 * shortestDistance {
          routesShown := routesShown + 1;
          shown := shown + [route];
        }
        i := i + 1;
      }
      WithinLimitPrefix(adjList, sortedRoutes, shortestDistance, i);
      if i == |sortedRoutes| {
        assert sortedRoutes[..i] == sortedRoutes;
      }
    }

    /**
     * The middle of findAlternativeRoutes: search from `start` with a fresh path, a fresh
     * set and no station visited, list the routes found, sort them by distance and remove
     * the shortest route.
     */
    method SortedCandidates(start: int, end: int, shortestPath: seq<int>, shortestDistance: int)
      returns (others: seq<seq<int>>)
      requires Valid() && 0 <= start < numStations && 0 <= end < numStations
      requires InRange(adjList, shortestPath) && shortestDistance == PathDistance(adjList, shortestPath)
      ensures var k := if |others| < MaxAlternativeRoutes - 1 then |others| else MaxAlternativeRoutes - 1;
              AllInRange(adjList, others) && WithinLimit(adjList, others, shortestDistance) == others &&
              Ranked(adjList, start, end, shortestPath, others[..k])
    {
      var search := new RouteSearch();
      var visited := new bool[numStations](_ => false);
      FindAllPathsDFS(start, end, visited, search, shortestDistance);
      var routes := RoutesInSomeOrder(search.allRoutes);
      assert AllInRange(adjList, routes);
      CandidatesRanked(adjList, start, end, shortestPath, routes);
      var sortedRoutes := SortByDistance(adjList, routes);
      others := Without(sortedRoutes, shortestPath);
    }

    /**
     * findAlternativeRoutes: nothing when there is no shortest route (the method prints a
     * message and returns); otherwise the shortest route and the alternatives it shows:
     * at most two simple routes from start to end other than the shortest, within the
     * deviation, in order of distance, and no shown route is farther than a candidate left out.
     */
    method FindAlternativeRoutes(startName: string, endName: string) returns (choice: Option<RouteChoice>)
      requires Valid() && startName in stationMap && endName in stationMap
      modifies this
      ensures Valid() && adjList == old(adjList) && stationMap == old(stationMap)
      ensures Keeps(old(routeCache), old(cacheOrigin))
      ensures old(CacheSound()) ==> CacheSound()
      ensures choice.None? <==> KeyOf(stationMap[startName], stationMap[endName]) !in routeCache
      ensures choice.None? ==> forall q :: !Connects(adjList, q, stationMap[startName], stationMap[endName])
      ensures choice.Some? ==>
                choice.value.shortest == routeCache[KeyOf(stationMap[startName], stationMap[endName])] &&
                InRange(adjList, choice.value.shortest) &&
                Ranked(adjList, stationMap[startName], stationMap[endName], choice.value.shortest, choice.value.alternatives)
      ensures FreshTimeRoute(old(routeCache), stationMap[startName], stationMap[endName])
      ensures KeyOf(stationMap[startName], stationMap[endName]) !in old(routeCache) && choice.Some? && NoParallel(adjList) ==>
                Shortest(adjList, choice.value.shortest, stationMap[startName], stationMap[endName], true)
    {
      var start, end := stationMap[startName], stationMap[endName];
      var shortestPath := FindShortestPathById(start, end, true);
      if shortestPath.None? {
        return None;
      }
      var sp := shortestPath.value;
      assert RoutesFor(adjList, sp, cacheOrigin[KeyOf(start, end)]);
      var shortestDistance := CalculatePathDistance(sp);

      var others := SortedCandidates(start, end, sp, shortestDistance);
      var shown := SelectAlternatives(others, shortestDistance);
      return Some(RouteChoice(sp, shown));
    }
  }

  /**
   * The private calculateFareWithDiscounts(List, boolean, boolean): nothing for a missing
   * or empty route, otherwise the fare for the route's distance.
   */
  function RouteFare(adj: Adjacency, path: Option<seq<int>>, isStudent: bool, isSenior: bool): (fare: real)
    requires path.Some? ==> InRange(adj, path.value)
    ensures IsHalfMultiple(fare)
    ensures path.None? || path.value == [] ==> fare == 0.0
    ensures WellFormed(adj) ==> 0.0 <= fare
  {
    if path.None? || path.value == [] then 0.0
    else
      var distance := PathDistance(adj, path.value);
      assert WellFormed(adj) ==> distance >= 0 by {
        if WellFormed(adj) {
          RouteCostNonNegative(adj, path.value, true);
        }
      }
      Fare(distance, isStudent, isSenior)
  }

  /**
   * The fares of two routes are in the order of their distances, and neither discount
   * raises a route's fare.
   */
  lemma RouteFareOrder(adj: Adjacency, p: seq<int>, q: seq<int>, isStudent: bool, isSenior: bool)
    requires WellFormed(adj) && InRange(adj, p) && InRange(adj, q) && p != [] && q != []
    ensures PathDistance(adj, p) <= PathDistance(adj, q) ==>
              RouteFare(adj, Some(p), isStudent, isSenior) <= RouteFare(adj, Some(q), isStudent, isSenior)
    ensures RouteFare(adj, Some(p), true, isSenior) <= RouteFare(adj, Some(p), false, isSenior)
    ensures RouteFare(adj, Some(p), isStudent, true) <= RouteFare(adj, Some(p), isStudent, false)
  {
    if PathDistance(adj, p) <= PathDistance(adj, q) {
      FareMonotone(PathDistance(adj, p), PathDistance(adj, q), isStudent, isSenior);
    }
    RouteCostNonNegative(adj, p, true);
    DiscountsNeverRaise(PathDistance(adj, p), isStudent, isSenior);
  }

  /** The fare of a shortest route by distance is no more than the fare of any route between its ends. */
  lemma ShortestFareIsLeast(adj: Adjacency, p: seq<int>, s: int, t: int, isStudent: bool, isSenior: bool, q: seq<int>)
    requires WellFormed(adj) && Shortest(adj, p, s, t, true) && Connects(adj, q, s, t)
    ensures RouteFare(adj, Some(p), isStudent, isSenior) <= Fare(PathDistance(adj, q), isStudent, isSenior)
  {
    FareMonotone(PathDistance(adj, p), PathDistance(adj, q), isStudent, isSenior);
  }

  /** What findAlternativeRoutes prints: the shortest route, then the alternatives it shows. */
  datatype RouteChoice = RouteChoice(shortest: seq<int>, alternatives: seq<seq<int>>)

  /**
   * The alternatives shown for a shortest route: at most MAX_ALTERNATIVE_ROUTES - 1 of
   * them, none repeated, none the shortest route itself, each a simple route from `start`
   * to `end` within the deviation of the shortest route's distance, in order of distance,
   * and a candidate left out only when all places are taken by routes no longer than it.
   */
  ghost predicate Ranked(adj: Adjacency, start: int, end: int, shortest: seq<int>, alts: seq<seq<int>>)
    requires InRange(adj, shortest)
  {
    var limit := PathDistance(adj, shortest);
    |alts| <= MaxAlternativeRoutes - 1 && Distinct(alts) && AllInRange(adj, alts) && SortedByDistance(adj, alts) &&
    (forall r :: r in alts ==> r != shortest && Found(adj, [], start, end, limit, r)) &&
    (forall r :: Found(adj, [], start, end, limit, r) && r != shortest && r !in alts ==>
       |alts| == MaxAlternativeRoutes - 1 && forall a :: a in alts ==> PathDistance(adj, a) <= PathDistance(adj, r))
  }

  /**
   * The first MAX_ALTERNATIVE_ROUTES - 1 routes of a sorted list without repeats holding
   * exactly the candidates other than the shortest route are a correct choice of alternatives.
   */
  lemma RankedPrefix(adj: Adjacency, start: int, end: int, shortest: seq<int>, others: seq<seq<int>>)
    requires InRange(adj, shortest) && AllInRange(adj, others)
    requires SortedByDistance(adj, others) && Distinct(others)
    requires forall r :: r in others <==> r != shortest && Found(adj, [], start, end, PathDistance(adj, shortest), r)
    ensures var k := if |others| < MaxAlternativeRoutes - 1 then |others| else MaxAlternativeRoutes - 1;
            Ranked(adj, start, end, shortest, others[..k])
  {
    var k := if |others| < MaxAlternativeRoutes - 1 then |others| else MaxAlternativeRoutes - 1;
    var alts := others[..k];
    forall r | r in alts
      ensures r in others
    {
      var i :| 0 <= i < k && alts[i] == r;
      assert others[i] == r;
    }
    assert k == |others| ==> alts == others;
    forall r | Found(adj, [], start, end, PathDistance(adj, shortest), r) && r != shortest && r !in alts
      ensures |alts| == MaxAlternativeRoutes - 1
      ensures forall a :: a in alts ==> PathDistance(adj, a) <= PathDistance(adj, r)
    {
      FirstAreNearest(adj, others, r, k);
    }
  }

  /**
   * The collected routes, sorted and without the shortest route, all pass the display
   * loop's test, and their first MAX_ALTERNATIVE_ROUTES - 1 are a correct choice.
   */
  lemma CandidatesRanked(adj: Adjacency, start: int, end: int, shortest: seq<int>, routes: seq<seq<int>>)
    requires InRange(adj, shortest) && AllInRange(adj, routes) && Distinct(routes)
    requires forall r :: r in routes <==> Found(adj, [], start, end, PathDistance(adj, shortest), r)
    ensures var others := Without(SortByDistance(adj, routes), shortest);
            var k := if |others| < MaxAlternativeRoutes - 1 then |others| else MaxAlternativeRoutes - 1;
            AllInRange(adj, others) && WithinLimit(adj, others, PathDistance(adj, shortest)) == others &&
            Ranked(adj, start, end, shortest, others[..k])
  {
    var sorted := SortByDistance(adj, routes);
    SortIsSorted(adj, routes);
    SortKeepsDistinct(adj, routes);
    assert forall r :: r in sorted <==> r in routes by {
      forall r
        ensures r in sorted <==> r in routes
      {
        assert r in sorted <==> r in multiset(sorted);
        assert r in routes <==> r in multiset(routes);
      }
    }
    var others := Without(sorted, shortest);
    WithoutKeepsSorted(adj, sorted, shortest);
    WithoutKeepsDistinct(sorted, shortest);
    WithinLimitKeepsAll(adj, others, PathDistance(adj, shortest));
    RankedPrefix(adj, start, end, shortest, others);
  }

  /** Every entry of the first cache is in the second, unchanged, with the same origin. */
  ghost predicate Kept(cache0: map<string, seq<int>>, origin0: map<string, CacheOrigin>,
                       cache1: map<string, seq<int>>, origin1: map<string, CacheOrigin>)
  {
    forall k :: k in cache0 && k in origin0 ==>
      k in cache1 && k in origin1 && cache1[k] == cache0[k] && origin1[k] == origin0[k]
  }

  lemma KeptTransitive(cache0: map<string, seq<int>>, origin0: map<string, CacheOrigin>,
                       cache1: map<string, seq<int>>, origin1: map<string, CacheOrigin>,
                       cache2: map<string, seq<int>>, origin2: map<string, CacheOrigin>)
    requires Kept(cache0, origin0, cache1, origin1) && Kept(cache1, origin1, cache2, origin2)
    ensures Kept(cache0, origin0, cache2, origin2)
  {
  }

  /**
   * The search of findShortestPath without the cache: Dijkstra's search from `start`, then
   * the walk back from `end`. The walk reaches `start` exactly when some route connects
   * the two, and is then such a route, a shortest one wherever the costs agree.
   */
  method SearchAndTrace(adj: Adjacency, start: int, end: int, timeOptimized: bool) returns (p: seq<int>)
    requires WellFormed(adj) && 0 <= start < |adj| && 0 <= end < |adj|
    ensures |p| >= 1
    ensures p[0] != start <==> forall q :: !Connects(adj, q, start, end)
    ensures p[0] == start ==> Connects(adj, p, start, end)
    ensures p[0] == start && CostsAgree(adj, timeOptimized) ==> Shortest(adj, p, start, end, timeOptimized)
  {
    var distances, previous := RunDijkstra(adj, start, end, timeOptimized);
    p := TracePath(adj, start, end, distances, previous, timeOptimized);
    SearchOutcome(adj, start, end, timeOptimized, distances, p);
  }

  /**
   * What the search and the walk back decide: the walk misses the start exactly when no
   * route exists, and otherwise gives a route that is shortest whenever costs agree.
   */
  lemma SearchOutcome(adj: Adjacency, start: int, end: int, timeOptimized: bool,
                      distances: seq<Distance>, p: seq<int>)
    requires 0 <= end < |adj| && |distances| == |adj|
    requires Optimal(adj, start, end, distances, timeOptimized)
    requires |p| >= 1 && (p[0] == start <==> distances[end].Finite?)
    requires p[0] == start ==> Connects(adj, p, start, end)
    requires p[0] == start && CostsAgree(adj, timeOptimized) ==>
               RouteCost(adj, p, timeOptimized) == distances[end].value
    ensures p[0] != start <==> forall q :: !Connects(adj, q, start, end)
    ensures p[0] == start && CostsAgree(adj, timeOptimized) ==> Shortest(adj, p, start, end, timeOptimized)
  {
  }

  /** The lists after addEdge(u, v, w): each list gains exactly the edges added to it. */
  lemma AddEdgeKeepsShape(adj: Adjacency, u: int, v: int, w: int, adj': Adjacency)
    requires 0 <= u < |adj| && 0 <= v < |adj| && w > 0
    requires WellFormed(adj) && Symmetric(adj)
    requires adj' == adj[u := adj[u] + [Edge(v, w)]][v := adj[u := adj[u] + [Edge(v, w)]][v] + [Edge(u, w)]]
    ensures WellFormed(adj') && Symmetric(adj') && Extends(adj, adj')
  {
    forall x | 0 <= x < |adj|
      ensures adj'[x] == adj[x] + (if x == u then [Edge(v, w)] else []) + (if x == v then [Edge(u, w)] else [])
    {
    }
    forall x, e | 0 <= x < |adj'| && e in adj'[x]
      ensures 0 <= e.to < |adj'| && e.weight > 0 && Edge(x, e.weight) in adj'[e.to]
    {
      if e !in adj[x] {
        assert (x == u && e == Edge(v, w)) || (x == v && e == Edge(u, w));
      }
    }
  }
}
