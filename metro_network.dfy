/**
 * The network `main` of MetroRouteOptimization.java sets up before its menu loop:
 * `new MetroGraph(22)`, an addStation call for every row of the station table and an
 * addEdge call for every track, in table order.
 */
module MetroNetwork {
  import opened Wrappers
  import opened MetroPaths
  import opened MetroData
  import opened MetroGraphs

  /** Every station of the table is registered under its name, and every registered name is a table name. */
  ghost predicate NamesFromTable(graph: MetroGraph, count: int)
    reads graph, graph.stationNames
  {
    0 <= count <= |Stations| && |Stations| <= graph.stationNames.Length &&
    (forall k :: 0 <= k < count ==> graph.stationNames[k] == Some(Stations[k].name)) &&
    (forall k :: 0 <= k < count ==> Stations[k].name in graph.stationMap) &&
    forall name :: name in graph.stationMap ==>
      0 <= graph.stationMap[name] < count && Stations[graph.stationMap[name]].name == name
  }

  /**
   * The built graph: every station under its table name, the adjacency lists read from
   * the track table (so both implementations search the same lists), no two edges to one
   * station in any list, and an empty cache.
   */
  method BuildNetwork() returns (graph: MetroGraph)
    ensures fresh(graph) && fresh(graph.stationNames)
    ensures graph.Valid() && graph.CacheSound() && graph.numStations == |Stations|
    ensures graph.adjList == Graph(Links, |Stations|) && NoParallel(graph.adjList)
    ensures forall i :: 0 <= i < |Stations| ==> graph.stationNames[i] == Some(Stations[i].name)
    ensures forall i :: 0 <= i < |Stations| ==> Stations[i].name in graph.stationMap
    ensures forall name :: name in graph.stationMap ==>
              0 <= graph.stationMap[name] < |Stations| && Stations[graph.stationMap[name]].name == name
    ensures graph.routeCache == map[]
  {
    StationTable();
    graph := new MetroGraph(22);
    AddStationTable(graph);
    AddTrackTable(graph);
    LinkTableSingly();
    GraphSimple(Links, 22);
  }

  /** The 22 addStation calls: each table row's name under its id. */
  method AddStationTable(graph: MetroGraph)
    requires graph.Valid() && graph.numStations == |Stations|
    requires graph.stationMap == map[] && graph.routeCache == map[]
    modifies graph, graph.stationNames
    ensures graph.Valid() && graph.numStations == |Stations| && NamesFromTable(graph, |Stations|)
    ensures graph.adjList == old(graph.adjList) && graph.routeCache == map[] && graph.cacheOrigin == old(graph.cacheOrigin)
  {
    StationTable();
    for i := 0 to |Stations|
      invariant graph.Valid() && graph.numStations == |Stations| && NamesFromTable(graph, i)
      invariant graph.adjList == old(graph.adjList) && graph.routeCache == map[] && graph.cacheOrigin == old(graph.cacheOrigin)
    {
      graph.AddStation(Stations[i].name, Stations[i].id);
    }
  }

  /** The 24 addEdge calls, one per track in table order: the lists become those read from the table. */
  method AddTrackTable(graph: MetroGraph)
    requires graph.Valid() && graph.numStations == 22 && graph.adjList == seq(22, _ => [])
    modifies graph
    ensures graph.Valid() && graph.adjList == Graph(Links, 22)
    ensures graph.stationMap == old(graph.stationMap) && graph.routeCache == old(graph.routeCache)
    ensures graph.cacheOrigin == old(graph.cacheOrigin)
  {
    LinkTable();
    AddLinks(graph, Links);
  }

  /** addEdge for every link of `links` in order, starting from empty lists. */
  method AddLinks(graph: MetroGraph, links: seq<Link>)
    requires graph.Valid() && LinksWellFormed(links, graph.numStations)
    requires graph.adjList == seq(graph.numStations, _ => [])
    modifies graph
    ensures graph.Valid() && graph.adjList == Graph(links, graph.numStations)
    ensures graph.stationMap == old(graph.stationMap) && graph.routeCache == old(graph.routeCache)
    ensures graph.cacheOrigin == old(graph.cacheOrigin)
  {
    var n := graph.numStations;
    assert Graph(links[..0], n) == graph.adjList;
    for i := 0 to |links|
      invariant graph.Valid() && graph.adjList == Graph(links[..i], n)
      invariant graph.stationMap == old(graph.stationMap) && graph.routeCache == old(graph.routeCache)
      invariant graph.cacheOrigin == old(graph.cacheOrigin)
    {
      var l := links[i];
      assert l in links;
      graph.AddEdge(l.from, l.to, l.length);
      GraphAppend(links[..i], l, n);
      assert links[..i + 1] == links[..i] + [l];
    }
    assert links[..|links|] == links;
  }
}
