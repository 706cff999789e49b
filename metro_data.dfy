/**
 * The network both implementations are built on: the 22 stations and 24 tracks that
 * `main` of MetroRouteOptimization.java feeds to addStation/addEdge and that script.js
 * declares as its `stations` and `edges` constants (the same names, ids and lengths).
 * A track is undirected; the lists of tracks touching each station, each seen from that
 * station, are exactly the adjacency lists addEdge builds.
 */
module MetroData {
  import opened MetroPaths

  /** A row of the `stations` table: an id and the station's name (`label` in script.js). */
  datatype Station = Station(id: int, name: string)

  /** A row of the `edges` table of script.js, one `addEdge(from, to, length)` call in Java. */
  datatype Link = Link(from: int, to: int, length: int)

  const Stations: seq<Station> := [
    Station(0, "CENTRAL SECRETARIAT"), Station(1, "PATEL CHOWK"), Station(2, "RAJIV CHOWK"),
    Station(3, "MANDI HOUSE"), Station(4, "SUPREME COURT"), Station(5, "INDRAPRASTHA"),
    Station(6, "YAMUNA BANK"), Station(7, "AKSHARDHAM"), Station(8, "MAYUR VIHAR"),
    Station(9, "NIZAMUDDIN"), Station(10, "ASHRAM"), Station(11, "VINOBAPURI"),
    Station(12, "LAJPAT NAGAR"), Station(13, "SOUTH EXTENTION"), Station(14, "DILLI HAAT"),
    Station(15, "JOR BAGH"), Station(16, "LOK KALYAN MARG"), Station(17, "UDYOG BHAWAN"),
    Station(18, "KHAN MARKET"), Station(19, "JLN STADIUM"), Station(20, "JANGPURA"),
    Station(21, "JANPATH")
  ]

  const Links: seq<Link> := [
    Link(0, 1, 2), Link(0, 21, 1), Link(0, 17, 2), Link(0, 18, 4), Link(1, 2, 2), Link(2, 3, 4),
    Link(3, 4, 2), Link(3, 21, 3), Link(4, 5, 2), Link(5, 6, 3), Link(6, 7, 3), Link(7, 8, 3),
    Link(8, 9, 5), Link(9, 10, 3), Link(10, 11, 3), Link(11, 12, 3), Link(12, 13, 3), Link(12, 20, 3),
    Link(13, 14, 2), Link(14, 15, 2), Link(15, 16, 2), Link(16, 17, 2), Link(18, 19, 3), Link(19, 20, 2)
  ]

  /** The link joins `u` and `v`, in either direction. */
  predicate Joins(l: Link, u: int, v: int)
  {
    (l.from == u && l.to == v) || (l.from == v && l.to == u)
  }

  /** Station ids are the positions in the table: 0, 1, 2, ... */
  predicate NumberedInOrder(stations: seq<Station>)
  {
    forall i :: 0 <= i < |stations| ==> stations[i].id == i
  }

  /** Every link joins two different stations among the first `n` and has a positive length. */
  predicate LinksWellFormed(links: seq<Link>, n: int)
  {
    forall l :: l in links ==> 0 <= l.from < n && 0 <= l.to < n && l.from != l.to && l.length > 0
  }

  /** No two links join the same pair of stations. */
  predicate SinglyLinked(links: seq<Link>)
  {
    forall i, j :: 0 <= i < j < |links| ==> !Joins(links[j], links[i].from, links[i].to)
  }

  /** A link seen from `u`: `edge.from === current ? edge.to : edge.from`, when it touches `u` at all. */
  function FarEnd(l: Link, u: int): seq<Edge>
  {
    if l.from == u then [Edge(l.to, l.length)]
    else if l.to == u then [Edge(l.from, l.length)]
    else []
  }

  /**
   * `edges.filter(edge => edge.from === current || edge.to === current)` with the far end
   * of each link taken: the neighbours of `u` in table order.
   */
  function Touching(links: seq<Link>, u: int): (r: seq<Edge>)
    ensures |r| <= |links|
  {
    if links == [] then [] else FarEnd(links[0], u) + Touching(links[1..], u)
  }

  /** The whole table as adjacency lists over stations 0..n-1. */
  function Graph(links: seq<Link>, n: nat): Adjacency
  {
    seq(n, u => Touching(links, u))
  }

  /** An edge out of `u` comes from a link that joins `u` to the edge's far end, with the link's length. */
  lemma {:induction false} TouchingMember(links: seq<Link>, u: int, e: Edge)
    ensures e in Touching(links, u) <==> exists l :: l in links && FarEnd(l, u) == [e]
    ensures e in Touching(links, u) ==> exists l :: l in links && Joins(l, u, e.to) && l.length == e.weight
  {
    if links != [] {
      TouchingMember(links[1..], u, e);
      assert forall l :: l in links <==> l == links[0] || l in links[1..];
    }
  }

  /** A link touching `u` shows up in `u`'s list as its far end. */
  lemma LinkInTouching(links: seq<Link>, l: Link, u: int)
    requires l in links && l.from != l.to && (l.from == u || l.to == u)
    ensures Edge(if l.from == u then l.to else l.from, l.length) in Touching(links, u)
  {
    TouchingMember(links, u, Edge(if l.from == u then l.to else l.from, l.length));
  }

  /** Appending a link to the table appends its far end to the lists of the stations it touches. */
  lemma {:induction false} TouchingAppend(links: seq<Link>, l: Link, u: int)
    ensures Touching(links + [l], u) == Touching(links, u) + FarEnd(l, u)
  {
    if links != [] {
      assert (links + [l])[1..] == links[1..] + [l];
      TouchingAppend(links[1..], l, u);
    }
  }

  /**
   * Appending a link to the table does to the lists what addEdge does: the far end is
   * appended to the list of one end, then the near end to the list of the other.
   */
  lemma GraphAppend(links: seq<Link>, l: Link, n: nat)
    requires 0 <= l.from < n && 0 <= l.to < n && l.from != l.to
    ensures var g := Graph(links, n);
            var g1 := g[l.from := g[l.from] + [Edge(l.to, l.length)]];
            Graph(links + [l], n) == g1[l.to := g1[l.to] + [Edge(l.from, l.length)]]
  {
    var g := Graph(links, n);
    var g1 := g[l.from := g[l.from] + [Edge(l.to, l.length)]];
    var g2 := g1[l.to := g1[l.to] + [Edge(l.from, l.length)]];
    forall u | 0 <= u < n
      ensures Graph(links + [l], n)[u] == g2[u]
    {
      TouchingAppend(links, l, u);
    }
  }

  /** The lists read from well-formed links are well formed and symmetric: every link is usable both ways. */
  lemma GraphShape(links: seq<Link>, n: nat)
    requires LinksWellFormed(links, n)
    ensures WellFormed(Graph(links, n)) && Symmetric(Graph(links, n))
  {
    var adj := Graph(links, n);
    forall u, e: Edge | 0 <= u < |adj| && e in adj[u]
      ensures 0 <= e.to < |adj| && e.weight > 0 && Edge(u, e.weight) in adj[e.to]
    {
      TouchingMember(links, u, e);
      var l :| l in links && FarEnd(l, u) == [e];
      LinkInTouching(links, l, e.to);
    }
  }

  /** Without two links for one pair, no list holds two edges to the same station. */
  lemma {:induction false} TouchingSimple(links: seq<Link>, u: int)
    requires SinglyLinked(links)
    ensures forall i, j :: 0 <= i < j < |Touching(links, u)| ==> Touching(links, u)[i].to != Touching(links, u)[j].to
  {
    if links != [] {
      var rest := links[1..];
      assert SinglyLinked(rest) by {
        forall i, j | 0 <= i < j < |rest|
          ensures !Joins(rest[j], rest[i].from, rest[i].to)
        {
          assert rest[i] == links[i + 1] && rest[j] == links[j + 1];
        }
      }
      TouchingSimple(rest, u);
      var head := FarEnd(links[0], u);
      var t := Touching(rest, u);
      assert Touching(links, u) == head + t;
      if head != [] {
        forall k | 0 <= k < |t|
          ensures t[k].to != head[0].to
        {
          TouchingMember(rest, u, t[k]);
          var l :| l in rest && Joins(l, u, t[k].to) && l.length == t[k].weight;
          var m :| 0 <= m < |rest| && rest[m] == l;
          assert links[m + 1] == l;
        }
      }
    }
  }

  lemma GraphSimple(links: seq<Link>, n: nat)
    requires SinglyLinked(links)
    ensures NoParallel(Graph(links, n))
  {
    forall u | 0 <= u < n
      ensures forall i, j :: 0 <= i < j < |Graph(links, n)[u]| ==> Graph(links, n)[u][i].to != Graph(links, n)[u][j].to
    {
      TouchingSimple(links, u);
    }
  }

  /** The station table as written: 22 stations numbered in order. */
  lemma StationTable()
    ensures |Stations| == 22 && NumberedInOrder(Stations)
  {
    forall i | 0 <= i < |Stations|
      ensures Stations[i].id == i
    {
      assert i == 0 || i == 1 || i == 2 || i == 3 || i == 4 || i == 5 || i == 6 || i == 7 || i == 8 || i == 9 ||
             i == 10 || i == 11 || i == 12 || i == 13 || i == 14 || i == 15 || i == 16 || i == 17 || i == 18 ||
             i == 19 || i == 20 || i == 21;
    }
  }

  /** The track table as written: 24 well-formed links among the 22 stations. */
  lemma LinkTable()
    ensures |Links| == 24 && LinksWellFormed(Links, 22)
  {
    forall l | l in Links
      ensures 0 <= l.from < 22 && 0 <= l.to < 22 && l.from != l.to && l.length > 0
    {
      var i :| 0 <= i < |Links| && Links[i] == l;
    }
  }

  /** No pair of stations is joined twice in the track table. */
  lemma LinkTableSingly()
    ensures SinglyLinked(Links)
  {
    forall i, j | 0 <= i < j < |Links|
      ensures !Joins(Links[j], Links[i].from, Links[i].to)
    {
      assert Links[i] in Links && Links[j] in Links;
    }
  }

  /** A step from `u` to `v` costs the length of the one link that joins them. */
  lemma StepOnLink(links: seq<Link>, n: nat, u: int, v: int, l: Link)
    requires SinglyLinked(links) && 0 <= u < n && l in links && Joins(l, u, v) && Adjacent(Graph(links, n), u, v)
    ensures StepCost(Graph(links, n), u, v, true) == l.length
  {
    var e := FirstEdgeTo(Graph(links, n)[u], v).value;
    TouchingMember(links, u, e);
    var k :| k in links && Joins(k, u, v) && k.length == e.weight;
    var i :| 0 <= i < |links| && links[i] == k;
    var j :| 0 <= j < |links| && links[j] == l;
  }

  /**
   * The two-track ride from CENTRAL SECRETARIAT (0) through PATEL CHOWK (1) to RAJIV CHOWK (2)
   * is a shortest route, 4 units long: the only tracks into station 2 are 1-2 (2 units)
   * and 3-2 (4 units), and every track into station 1 is 2 units long.
   */
  lemma ShortestZeroToTwo()
    ensures Shortest(Graph(Links, 22), [0, 1, 2], 0, 2, true)
    ensures PathDistance(Graph(Links, 22), [0, 1, 2]) == 4
  {
    LinkTable();
    LinkTableSingly();
    TracksAtOneAndTwo();
    ShortestThroughOne(Links);
  }

  /** The tracks touching stations 1 and 2 in the table. */
  lemma TracksAtOneAndTwo()
    ensures Link(0, 1, 2) in Links && Link(1, 2, 2) in Links
    ensures forall l :: l in Links && (l.from == 2 || l.to == 2) ==> l == Link(1, 2, 2) || l == Link(2, 3, 4)
    ensures forall l :: l in Links && (l.from == 1 || l.to == 1) ==> l.length == 2
  {
    forall l | l in Links
      ensures (l.from == 2 || l.to == 2) ==> l == Link(1, 2, 2) || l == Link(2, 3, 4)
      ensures (l.from == 1 || l.to == 1) ==> l.length == 2
    {
      var i :| 0 <= i < |Links| && Links[i] == l;
      assert i < 6 || i >= 6;
    }
  }

  /** The argument of ShortestZeroToTwo, for any table with the same tracks at stations 1 and 2. */
  lemma ShortestThroughOne(links: seq<Link>)
    requires LinksWellFormed(links, 22) && SinglyLinked(links)
    requires Link(0, 1, 2) in links && Link(1, 2, 2) in links
    requires forall l :: l in links && (l.from == 2 || l.to == 2) ==> l == Link(1, 2, 2) || l == Link(2, 3, 4)
    requires forall l :: l in links && (l.from == 1 || l.to == 1) ==> l.length == 2
    ensures Shortest(Graph(links, 22), [0, 1, 2], 0, 2, true)
    ensures PathDistance(Graph(links, 22), [0, 1, 2]) == 4
  {
    RideZeroOneTwo(links);
    forall q | Connects(Graph(links, 22), q, 0, 2)
      ensures 4 <= RouteCost(Graph(links, 22), q, true)
    {
      IntoTwoCostsFour(links, q);
    }
  }

  /** [0, 1, 2] is a route along the tracks 0-1 and 1-2, 2 units each. */
  lemma RideZeroOneTwo(links: seq<Link>)
    requires LinksWellFormed(links, 22) && SinglyLinked(links)
    requires Link(0, 1, 2) in links && Link(1, 2, 2) in links
    ensures Connects(Graph(links, 22), [0, 1, 2], 0, 2)
    ensures PathDistance(Graph(links, 22), [0, 1, 2]) == 4
  {
    var adj := Graph(links, 22);
    LinkInTouching(links, Link(0, 1, 2), 0);
    LinkInTouching(links, Link(1, 2, 2), 1);
    assert Adjacent(adj, 0, 1) && Adjacent(adj, 1, 2);
    var p := [0, 1, 2];
    assert IsRoute(adj, p);
    StepOnLink(links, 22, 0, 1, Link(0, 1, 2));
    StepOnLink(links, 22, 1, 2, Link(1, 2, 2));
    assert p[..2] == [0, 1] && [0, 1][..1] == [0];
  }

  /** Any route from station 0 to station 2 is at least 4 units long. */
  lemma IntoTwoCostsFour(links: seq<Link>, q: seq<int>)
    requires LinksWellFormed(links, 22) && SinglyLinked(links)
    requires forall l :: l in links && (l.from == 2 || l.to == 2) ==> l == Link(1, 2, 2) || l == Link(2, 3, 4)
    requires forall l :: l in links && (l.from == 1 || l.to == 1) ==> l.length == 2
    requires Connects(Graph(links, 22), q, 0, 2)
    ensures 4 <= RouteCost(Graph(links, 22), q, true)
  {
    var k := |q|;
    var l := LastStep(links, q);
    var init := q[..k - 1];
    if q[k - 2] == 1 {
      assert init[0] == 0 && init[|init| - 1] == 1;
      var m := LastStep(links, init);
    }
  }

  /**
   * [0, 1, 2] is the only shortest route from station 0 to station 2, so a search for the
   * pair can return no other.
   */
  lemma ShortestZeroToTwoIsUnique(q: seq<int>)
    requires Shortest(Graph(Links, 22), q, 0, 2, true)
    ensures q == [0, 1, 2]
  {
    LinkTable();
    LinkTableSingly();
    TracksAtOneAndTwo();
    ShortestZeroToTwo();
    OnlyRideCostsFour(Links, q);
  }

  /** A route from station 0 to station 2 of at most 4 units is the ride 0, 1, 2. */
  lemma OnlyRideCostsFour(links: seq<Link>, q: seq<int>)
    requires LinksWellFormed(links, 22) && SinglyLinked(links)
    requires forall l :: l in links && (l.from == 2 || l.to == 2) ==> l == Link(1, 2, 2) || l == Link(2, 3, 4)
    requires forall l :: l in links && (l.from == 1 || l.to == 1) ==> l.length == 2
    requires Connects(Graph(links, 22), q, 0, 2) && RouteCost(Graph(links, 22), q, true) <= 4
    ensures q == [0, 1, 2]
  {
    var k := |q|;
    var l := LastStep(links, q);
    var init := q[..k - 1];
    assert init[0] == 0 && init[|init| - 1] == q[k - 2];
    assert q[k - 2] == 1 && k >= 3;
    var m := LastStep(links, init);
    assert init[..k - 2] == q[..k - 2];
  }

  /**
   * The last step of a route along the tracks: the track it is charged for, and the cost
   * of the route without it, which is a route of at least one unit per step.
   */
  lemma LastStep(links: seq<Link>, q: seq<int>) returns (l: Link)
    requires LinksWellFormed(links, 22) && SinglyLinked(links)
    requires IsRoute(Graph(links, 22), q) && |q| >= 2
    ensures l in links && Joins(l, q[|q| - 2], q[|q| - 1])
    ensures IsRoute(Graph(links, 22), q[..|q| - 1])
    ensures RouteCost(Graph(links, 22), q, true) == RouteCost(Graph(links, 22), q[..|q| - 1], true) + l.length
    ensures RouteCost(Graph(links, 22), q[..|q| - 1], true) >= |q| - 2
  {
    var adj := Graph(links, 22);
    GraphShape(links, 22);
    var u, v := q[|q| - 2], q[|q| - 1];
    assert Adjacent(adj, u, v);
    var e := FirstEdgeTo(adj[u], v).value;
    TouchingMember(links, u, e);
    l :| l in links && Joins(l, u, v) && l.length == e.weight;
    StepOnLink(links, 22, u, v, l);
    PrefixIsRoute(adj, q, |q| - 1);
    RouteCostBounds(adj, q[..|q| - 1], true);
  }
}
