# Metro route optimisation, modelled in Dafny

This project models the route engine of a 22-station metro network. The engine exists twice:

- as the Java program `MetroRouteOptimization.java`;
- as its browser port, `script.js`.

Both work on the same station table and the same table of undirected tracks with lengths.

The Java side is the `MetroGraph` class. It keeps three things:

- per-station adjacency lists (`adjList`);
- a name-to-id map and an id-to-name array;
- a route cache keyed by `"start|end"`.

It answers these queries:

- shortest routes, by Dijkstra's algorithm with a lazy-deletion priority queue and an early exit at the target, counting either track lengths or hops;
- path distances;
- fares with student and senior discounts;
- bills for a `Passenger`;
- the midway check of a route change;
- alternative routes, found by a backtracking depth-first search, kept within 1.5 times the shortest distance, sorted, with the shortest removed and at most two shown.

The browser port computes the same things from its constant tables:

- an O(n²) Dijkstra over a set of unvisited stations;
- a depth-first enumeration that stops expanding once three routes are held;
- `calculatePathDistance` over the track table;
- `calculateFare`.

## Modules

| file | module | models |
|---|---|---|
| `wrappers.dfy` | `Wrappers` | `Option` and `Result` (null results and exceptions) |
| `distances.dfy` | `Distances` | tentative distances: a number, or infinity (`Integer.MAX_VALUE`, `Infinity`) |
| `metro_paths.dfy` | `MetroPaths` | `MetroGraph.Edge`, adjacency lists, routes and their cost in both modes |
| `metro_dijkstra.dfy` | `MetroDijkstra` | the Java search loop, the relaxation loop and the walk back along `previous` |
| `alternatives.dfy` | `Alternatives` | the routes the depth-first searches collect, the deviation test, the sort and the removal of the shortest route |
| `fares.dfy` | `Fares` | the fare rule both programs share |
| `passenger.dfy` | `Passengers` | `Passenger`: constructor checks, bill and student flag |
| `metro_graph.dfy` | `MetroGraphs` | class `MetroGraph` with its cache, fares, bills and alternative routes |
| `metro_data.dfy` | `MetroData` | the station and track tables, and the adjacency lists they give |
| `metro_network.dfy` | `MetroNetwork` | the Java `main`'s construction of the network |
| `web_routes.dfy` | `WebRoutes` | `script.js`: `findShortestPath`, `findAlternativeRoutes` with `dfs`, `calculatePathDistance` |

Distances are unbounded integers. Fares are exact reals, with `Math.round(x * 2) / 2.0` written as `Floor(2x + 1/2) / 2`.

A null route is `None`. An exception the code throws on bad input is either a precondition (an unknown station name) or an error result (the `Passenger` checks, a missing route).

## Model

| member | source | states |
|---|---|---|
| MetroGraphs.CacheKey | MetroRouteOptimization.java:91-93 | the key is the start name, a bar, then the end name; both names can be read back from it |
| MetroGraphs.CacheKeyInjective | MetroRouteOptimization.java:91-93 | for names without a bar, two keys are equal exactly when both name pairs are equal |
| MetroGraphs.MetroGraph.constructor | MetroRouteOptimization.java:69-78 | `numStations` lists, all empty; no names; an empty cache |
| MetroGraphs.MetroGraph.AddStation | MetroRouteOptimization.java:80-83 | `stationMap[name] = id` and `stationNames[id] = name`; lists and cache unchanged |
| MetroGraphs.MetroGraph.AddEdge | MetroRouteOptimization.java:85-88 | `Edge(v, w)` is appended to u's list, then `Edge(u, w)` to v's; every other list is unchanged; the lists stay symmetric and every cached route stays a route |
| MetroGraphs.AddEdgeKeepsShape | MetroRouteOptimization.java:85-88 | adding both directions keeps the lists well formed and symmetric, and the old lists are a prefix of the new ones |
| MetroGraphs.MetroGraph.FindShortestPathById | MetroRouteOptimization.java:96-144 | hit: the stored route, whatever the mode, with the cache untouched. Miss: None exactly when no route exists; otherwise a route from start to end, shortest in the mode when no list holds two edges to one station, and cached under the key. Entries are never removed or overwritten |
| MetroGraphs.MetroGraph.SearchAndCache | MetroRouteOptimization.java:104-143 | on a miss, the search's route is cached exactly when it reaches the start, with its origin recorded; nothing else is added |
| MetroGraphs.MetroGraph.CacheRoute | MetroRouteOptimization.java:139-141 | `routeCache.put` adds one key and keeps cache soundness |
| MetroGraphs.MetroGraph.CacheHitConnects | MetroRouteOptimization.java:97-101 | when names are distinct and bar-free, a hit for a pair is a route computed for that very pair |
| MetroGraphs.MetroGraph.FindShortestPath | MetroRouteOptimization.java:171-173 | the public overload behaves as the private one on the mapped ids |
| MetroGraphs.SearchAndTrace | MetroRouteOptimization.java:104-143 | the walk back reaches the start exactly when a route exists; it is then a route, shortest wherever costs agree |
| MetroGraphs.SearchOutcome | MetroRouteOptimization.java:132-143 | an optimal target distance plus the walk back decide reachability and shortestness |
| MetroDijkstra.RunDijkstra | MetroRouteOptimization.java:104-130 | the search leaves a shortest-path tree in which the target's distance is at most the cost of any route to it |
| MetroDijkstra.RelaxEdges | MetroRouteOptimization.java:120-129 | each improving edge lowers its far end, records `u` as predecessor and queues the distance; afterwards the search invariant holds; a re-polled station changes nothing |
| MetroDijkstra.TracePath | MetroRouteOptimization.java:132-136 | the route ends at `end`; it starts at `start` exactly when `end` was reached, and is then a route whose cost is the target's distance; otherwise it is `[end]` |
| MetroDijkstra.TraceStep | MetroRouteOptimization.java:133-134 | a predecessor extends the route by one edge and is strictly closer to the start |
| MetroDijkstra.CutLemma | MetroRouteOptimization.java:113-118 | a route either stays in settled stations, so its end is already no farther, or it leaves them, so some queued entry is no larger than its cost |
| MetroDijkstra.TargetPoppedIsOptimal | MetroRouteOptimization.java:114-118 | polling the target as the least entry makes its distance optimal |
| MetroDijkstra.EmptyQueueMeansUnreachable | MetroRouteOptimization.java:113 | an empty queue with the target unsettled means no route to the target |
| MetroDijkstra.MinEntryExists | MetroRouteOptimization.java:114 | a non-empty queue has an entry of least distance |
| MetroDijkstra.SettlingShrinks | MetroRouteOptimization.java:113-130 | settling a new station shrinks the unsettled set, so the loop terminates |
| MetroDijkstra.PollStartsRelaxing | MetroRouteOptimization.java:114-120 | a polled entry for a non-target station starts the relaxation loop with its current distance |
| MetroDijkstra.RelaxKeep | MetroRouteOptimization.java:124 | an edge that does not improve keeps the invariant |
| MetroDijkstra.RelaxImprove | MetroRouteOptimization.java:124-127 | an improving edge reaches an unsettled station, and lowering it keeps the invariant |
| MetroDijkstra.ImproveKeepsRelaxed | MetroRouteOptimization.java:125 | lowering a distance relaxes the edge and keeps settled distances |
| MetroDijkstra.ImproveKeepsQueue | MetroRouteOptimization.java:127 | queueing the lowered distance keeps the queue invariants |
| MetroDijkstra.ImproveKeepsTree | MetroRouteOptimization.java:125-126 | the updated `previous` entry is a tree link along the relaxed edge |
| MetroDijkstra.RelaxDone | MetroRouteOptimization.java:120-129 | after the last edge, the search invariant holds again |
| MetroPaths.FirstEdgeTo | MetroRouteOptimization.java:239-244 | the edge found leads to `v` and is in the list; none is found exactly when no edge leads to `v` |
| MetroPaths.FirstEdgeIsUnique | MetroRouteOptimization.java:239-244 | without two edges to one station, the edge to `v` is the one found |
| MetroPaths.StepCostOfEdge | MetroRouteOptimization.java:122 | when costs agree, a step costs the cost of the edge the search relaxed |
| MetroPaths.RouteCostBounds | MetroRouteOptimization.java:122 | a route of k stations costs at least k - 1 in either mode |
| MetroPaths.RouteCostNonNegative | MetroRouteOptimization.java:236-247 | a distance over well-formed lists is never negative |
| MetroPaths.HopCost | MetroRouteOptimization.java:122 | in hop mode a route costs its number of edges |
| MetroPaths.RouteCostPrepend | MetroRouteOptimization.java:236-247 | the cost of a route with a station put in front is the first step plus the rest |
| MetroPaths.IsRoutePrepend | MetroRouteOptimization.java:133-136 | putting an adjacent station in front keeps a route |
| MetroPaths.DistinctBound | MetroRouteOptimization.java:252-254 | a path without repeats has at most `numStations` stations, so the depth guard never fires |
| MetroPaths.FirstEdgeToAppend | MetroRouteOptimization.java:85-88 | appending edges does not change which edge is found first |
| MetroPaths.ExtendKeepsRoute | MetroRouteOptimization.java:85-88 | a route and its cost survive appending edges |
| MetroGraphs.MetroGraph.FirstMatchWeight | MetroRouteOptimization.java:239-244 | the weight of the first edge to `next`, or 0 when there is none |
| MetroGraphs.MetroGraph.CalculatePathDistance | MetroRouteOptimization.java:236-247 | the sum, over consecutive pairs, of the first matching edge's weight; a pair without an edge adds 0 |
| MetroGraphs.RouteFare | MetroRouteOptimization.java:328-356 | 0 for a null or empty route, otherwise the fare of its distance; always a non-negative multiple of 0.5 |
| MetroGraphs.RouteFareOrder | MetroRouteOptimization.java:328-356 | fares follow distances, and neither discount raises a route's fare |
| MetroGraphs.MetroGraph.CachedFare | MetroRouteOptimization.java:323-326 | the fare of the route cached for the pair, 0 when none is cached |
| MetroGraphs.MetroGraph.CalculateFareWithDiscounts | MetroRouteOptimization.java:323-326 | the fare of the route the lookup leaves cached for the pair; a hit changes nothing. A route the call caches itself was computed in time mode for this pair, and its fare is then at most the fare of any route between the stations when no list holds two edges to one station |
| MetroGraphs.ShortestFareIsLeast | MetroRouteOptimization.java:323-356 | the fare of a shortest route by distance is at most the fare of any route between its ends |
| MetroGraphs.MetroGraph.CachedFareIsLeast | MetroRouteOptimization.java:323-356 | a cached time-mode route's fare is at most the fare of any route between the same stations |
| MetroGraphs.MetroGraph.GenerateBill | MetroRouteOptimization.java:292-298 | `billAmount` becomes the fare of the route cached for the pair; the student flag is unchanged. A route the call caches itself is the time-mode route for the pair, so the bill is then at most the fare of any route between the stations when no list holds two edges to one station |
| MetroGraphs.MetroGraph.FindMinimalTransferPath | MetroRouteOptimization.java:277-290 | it completes exactly when a route exists; it then bills the fare of what is cached for the pair, a hop-mode route if the pair was new; otherwise the bill is untouched |
| MetroGraphs.MetroGraph.IsOnPath | MetroRouteOptimization.java:311-320 | true exactly when the midway station is on the route cached for the pair; None exactly when nothing is cached, and then no route exists. On a hit the cached route may come from either mode; a route the call caches itself is the hop-mode route for the pair |
| MetroGraphs.MetroGraph.Occurs | MetroRouteOptimization.java:314-319 | true exactly when `mid` occurs in the route |
| MetroGraphs.MetroGraph.ChangeRoute | MetroRouteOptimization.java:300-309 | completes exactly when routes start→newDest and mid→newDest are both cached afterwards, whatever the midway check said; when it does not, one of the two pairs has no route and the bill is unchanged; when it does, the bill is fare(start, mid) + fare(mid, newDest) |
| MetroGraphs.MetroGraph.BillSplitJourney | MetroRouteOptimization.java:306-308 | the bill becomes the sum of the two leg fares |
| MetroGraphs.RouteSearch.constructor | MetroRouteOptimization.java:191-192 | the search starts with an empty path and an empty set of routes |
| MetroGraphs.MetroGraph.FindAllPathsDFS | MetroRouteOptimization.java:250-274 | `visited` and the path are restored; the set gains exactly the simple continuations from `current` to the destination within 1.5 times the shortest distance |
| MetroGraphs.MetroGraph.ExploreNeighbours | MetroRouteOptimization.java:265-269 | the set gains exactly the routes found through each neighbour off the path |
| MetroGraphs.MetroGraph.RoutesInSomeOrder | MetroRouteOptimization.java:200 | the list holds each collected route exactly once, in an order left open |
| MetroGraphs.MetroGraph.SelectAlternatives | MetroRouteOptimization.java:207-218 | the routes shown are the first at most two of the list that pass the deviation test |
| MetroGraphs.MetroGraph.SortedCandidates | MetroRouteOptimization.java:192-204 | the sorted candidates without the shortest route all pass the test, and their first two are a correct choice |
| MetroGraphs.MetroGraph.FindAlternativeRoutes | MetroRouteOptimization.java:176-223 | None exactly when no route exists. Otherwise the route cached for the pair; one the call caches itself is the time-mode route, and shortest when no list holds two edges to one station. Then at most two distinct simple routes from start to end, none of them that route, within the deviation and in order of distance; a candidate is left out only when both places hold routes no longer than it |
| MetroGraphs.RankedPrefix | MetroRouteOptimization.java:209-211 | the first two of a sorted, repeat-free list of the candidates are a correct choice |
| MetroGraphs.CandidatesRanked | MetroRouteOptimization.java:199-204 | sorting the collected routes and removing the shortest yields such a list |
| MetroGraphs.KeptTransitive | MetroRouteOptimization.java:139-141 | keeping cache entries composes across calls |
| Alternatives.FoundAtDestination | MetroRouteOptimization.java:259-263 | at the destination the only route collected is the path itself, and only within the deviation |
| Alternatives.FoundStep | MetroRouteOptimization.java:264-270 | elsewhere, the routes collected are those collected through some neighbour off the path |
| Alternatives.InsertByDistance | MetroRouteOptimization.java:201 | the result is a permutation of the list plus the new route |
| Alternatives.InsertKeepsSorted | MetroRouteOptimization.java:201 | insertion keeps the list in order of distance |
| Alternatives.SortByDistance | MetroRouteOptimization.java:201 | the result is a permutation of the list |
| Alternatives.SortIsSorted | MetroRouteOptimization.java:201 | the result is in non-decreasing order of distance |
| Alternatives.SortKeepsDistinct | MetroRouteOptimization.java:201 | sorting a list without repeats gives one without repeats |
| Alternatives.DistinctCounts | MetroRouteOptimization.java:192 | in a list without repeats, each route occurs at most once |
| Alternatives.Without | MetroRouteOptimization.java:204 | `removeIf(route.equals(shortestPath))` keeps exactly the other routes |
| Alternatives.WithoutKeepsSorted | MetroRouteOptimization.java:204 | removal keeps the order |
| Alternatives.WithoutKeepsDistinct | MetroRouteOptimization.java:204 | removal keeps the list free of repeats |
| Alternatives.WithinLimit | MetroRouteOptimization.java:213-214 | it keeps exactly the routes within 1.5 times the shortest distance, in order |
| Alternatives.WithinLimitPrefix | MetroRouteOptimization.java:209-218 | filtering a prefix gives a prefix of the filtered list |
| Alternatives.WithinLimitKeepsAll | MetroRouteOptimization.java:213-214 | a list whose routes all pass the test is kept whole |
| Alternatives.FirstAreNearest | MetroRouteOptimization.java:209-211 | in a sorted list, the routes before one left out are no longer than it |
| Fares.ZoneRate | MetroRouteOptimization.java:336-344 | the rate is 1.0 exactly up to distance 5, 2.5 exactly above 21, and always between them |
| Fares.RoundToHalf | MetroRouteOptimization.java:355 | a multiple of 0.5 within a quarter of the amount |
| Fares.Fare | MetroRouteOptimization.java:328-356 | a multiple of 0.5, within a quarter of the discounted total, never negative for a real distance |
| Fares.RoundToHalfMonotone | MetroRouteOptimization.java:355 | rounding keeps order |
| Fares.TotalMonotone | MetroRouteOptimization.java:346 | the undiscounted total grows with the distance |
| Fares.FareMonotone | script.js:187-202 | a longer journey never costs less, for every combination of discounts |
| Fares.DiscountsNeverRaise | MetroRouteOptimization.java:349-352 | the student discount and the senior discount each never raise the fare |
| Fares.WorkedFares | script.js:187-202 | 24.0 for 4 units without discount; 16.0 for a student riding 8 units |
| Passengers.Digits | MetroRouteOptimization.java:17 | a number has at least one digit |
| Passengers.DigitsBound | MetroRouteOptimization.java:17 | at most k digits exactly when below 10^k |
| Passengers.TenCharacters | MetroRouteOptimization.java:17 | the decimal string has 10 characters exactly for ten-digit numbers and for minus signs followed by nine digits |
| Passengers.ValidateAccepts | MetroRouteOptimization.java:10-19 | the checks pass exactly for a non-blank name, an age in 1..120 and a ten-character phone number; the first failing check gives the message |
| Passengers.Passenger.constructor | MetroRouteOptimization.java:20-27 | bill 0, not a student, a senior exactly from 60 |
| Passengers.Passenger.SetBillAmount | MetroRouteOptimization.java:30-32 | sets the bill only |
| Passengers.Passenger.SetStudentStatus | MetroRouteOptimization.java:54-56 | sets the student flag only |
| Passengers.CreatePassenger | MetroRouteOptimization.java:10-28 | fails exactly when a check fails, with that check's message; otherwise a fresh passenger in its initial state |
| MetroData.Touching | script.js:107-109 | a station's neighbour list has at most one entry per track |
| MetroData.TouchingMember | script.js:107-110 | an entry of the list comes from a track that joins the station to the entry's far end, with the track's length |
| MetroData.LinkInTouching | script.js:107-110 | every track touching a station shows up in its list |
| MetroData.TouchingAppend | MetroRouteOptimization.java:85-88 | one more track appends its far end to the lists of its two ends |
| MetroData.GraphAppend | MetroRouteOptimization.java:85-88 | the lists read from a table are what `addEdge` over that table builds |
| MetroData.GraphShape | MetroRouteOptimization.java:85-88 | tracks between distinct stations with positive lengths give well-formed, symmetric lists |
| MetroData.TouchingSimple | script.js:107-109 | without two tracks for one pair, no list holds two entries to one station |
| MetroData.GraphSimple | MetroRouteOptimization.java:408-431 | without two tracks for one pair, no list holds two edges to one station |
| MetroData.StationTable | script.js:2-25 | 22 stations, numbered 0 to 21 in order |
| MetroData.LinkTable | script.js:27-52 | 24 tracks, all between distinct stations in range with positive lengths |
| MetroData.LinkTableSingly | MetroRouteOptimization.java:408-431 | no two tracks join the same pair of stations |
| MetroData.StepOnLink | script.js:177-184 | a step along a track costs that track's length |
| MetroData.ShortestZeroToTwo | script.js:28-32 | on the real network, 0→1→2 is a shortest route from station 0 to station 2, of length 4 |
| MetroData.ShortestZeroToTwoIsUnique | script.js:28-32 | on the real network, 0→1→2 is the only shortest route from station 0 to station 2 |
| MetroData.OnlyRideCostsFour | MetroRouteOptimization.java:412 | with those tracks, the only route from 0 to 2 of at most 4 units is 0→1→2 |
| MetroData.TracksAtOneAndTwo | MetroRouteOptimization.java:408-431 | tracks 0–1 and 1–2 exist; the only tracks at station 2 are 1–2 and 2–3; every track at station 1 is 2 units long |
| MetroData.ShortestThroughOne | MetroRouteOptimization.java:408 | with those tracks, no route from 0 to 2 costs less than 4 |
| MetroData.RideZeroOneTwo | MetroRouteOptimization.java:412 | the ride 0→1→2 costs 4 |
| MetroData.IntoTwoCostsFour | MetroRouteOptimization.java:412 | any route ending at 2 costs at least 4 |
| MetroNetwork.BuildNetwork | MetroRouteOptimization.java:381-431 | the Java graph holds exactly the table's lists, without parallel edges; every station has its table name; the cache is empty |
| MetroNetwork.AddStationTable | MetroRouteOptimization.java:384-405 | every id's slot gets its table name, and the name maps back to a station of that name |
| MetroNetwork.AddTrackTable | MetroRouteOptimization.java:408-431 | the lists become those read from the track table |
| MetroNetwork.AddLinks | MetroRouteOptimization.java:408-431 | `addEdge` over a table, in order, builds the lists read from it |
| Distances.Extend | script.js:116 | `d + w` is finite exactly when `d` is, and then adds `w` |
| WebRoutes.FindLink | script.js:177-181 | the track found joins the pair; none is found exactly when no track does |
| WebRoutes.FindLinkIsFirstEdge | script.js:177-181 | the track found for a step is the first entry the filtered neighbour list has for it |
| WebRoutes.FarEndFirst | script.js:177-181 | a track in front is found first exactly when it joins the pair |
| WebRoutes.RouteHasLinks | script.js:175-185 | every step of a route has a track, so `edge.length` never fails on one |
| WebRoutes.CalculatePathDistance | script.js:175-185 | 0 for at most one station; otherwise the sum of the first joining track's length per step, equal to the distance of the route over the lists |
| WebRoutes.Delete | script.js:105 | removes exactly `x`, keeping the others; on a set without repeats, the size drops by exactly one when `x` was present |
| WebRoutes.NearestUnvisited | script.js:100-102 | an unvisited station at least as near as every other, and the first such in set order |
| WebRoutes.ScanCut | script.js:98-104 | a route either stays in visited stations, so its end is no farther, or meets an unvisited station that is no farther than its cost |
| WebRoutes.TargetPickedIsOptimal | script.js:104 | picking the target as the nearest unvisited station makes its distance optimal and leaves a shortest-path tree |
| WebRoutes.VisitNearest | script.js:100-105 | removing the nearest station from `unvisited` starts the neighbour loop |
| WebRoutes.TreeInvGrows | script.js:105 | visiting more stations keeps the predecessor tree |
| WebRoutes.NeighbourKeep | script.js:114-118 | a neighbour already visited or not improved keeps the invariant |
| WebRoutes.NeighbourImprove | script.js:116-120 | an improved unvisited neighbour gets the lower distance and `current` as predecessor, keeping the invariant |
| WebRoutes.NeighboursDone | script.js:112-121 | after the last neighbour, the main loop's invariant holds again |
| WebRoutes.RelaxUnvisited | script.js:107-121 | the main loop's invariant holds afterwards; no distance grows; visited stations keep their distance and predecessor |
| WebRoutes.ScanDijkstra | script.js:85-122 | the loop ends with the target picked, and leaves a shortest-path tree with the target's distance optimal |
| WebRoutes.FindShortestPath | script.js:85-132 | null exactly when start = end or the target is unreachable; otherwise a route of at least two stations from start to end along the tracks, shortest when no two tracks join one pair |
| WebRoutes.RouteExplorer.constructor | script.js:136-139 | nothing visited, the path `[start]`, no routes |
| WebRoutes.RouteExplorer.Dfs | script.js:143-169 | the path and `visited` are restored; at the target the path is appended exactly when it is within 1.5 times the shortest distance, however many routes are already held, so more than three can be collected; routes are only appended, each a simple continuation to the target within 1.5 times the shortest distance; nothing is expanded once three are held away from the target; while fewer than three are held, none was missed |
| WebRoutes.RouteExplorer.Explore | script.js:156-168 | the neighbour loop appends only routes through neighbours off the path, and while fewer than three are held, all of them |
| WebRoutes.RouteExplorer.Branch | script.js:158-164 | push, recurse and pop: the routes appended are those through that neighbour |
| WebRoutes.RouteExplorer.Push | script.js:160-161 | the path grows by the neighbour and stays a simple route; `visited` gains it |
| WebRoutes.ExploredOne | script.js:156-168 | one more neighbour keeps the loop's account of appended and missed routes |
| WebRoutes.FindAlternativeRoutes | script.js:135-173 | no list when there is no shortest route (start = end or unreachable). Otherwise every route is simple and from start to end, and at most 1.5 times as long as any route between them; when fewer than three come back, every such route is among them |

Helper lemmas without a row of their own: `MetroPaths.PrefixIsRoute` (a non-empty prefix of a route is a route) and `MetroData.LastStep` (the track the last step of a route is charged for, and the cost of the route without it). Both serve the proofs of `MetroData.OnlyRideCostsFour` and `MetroData.IntoTwoCostsFour`.

## Left out

- Console and browser I/O is not modelled. This covers the Java `main` loop with its `Scanner` input and menus, `displayRouteDetails` and `printRoute`, and the DOM, vis.js, storage and event code of `script.js`, including the `!startId` check in `findRoutes`. The construction of the network in `main` is modelled (`MetroNetwork.BuildNetwork`), and the passenger input it reads is not.
- The "Price:" line of `findMinimalTransferPath` is string concatenation, not a fare, and is left out. Its `generateBill` call is modelled.
- Fares are exact reals. The IEEE-754 rounding of `* 0.6` and friends is not modelled.
- Integers are unbounded. `Integer.MAX_VALUE` and `Infinity` are both `Distance.Infinite`, so `distances[u] + weight` never wraps. Only reached stations are polled, so the Java code never adds to the sentinel either.
- `PriorityQueue` is a multiset of entries, and the entry polled is some least one. `HashMap` is a map. `HashSet` is a set, and the order `new ArrayList<>(allRoutes)` lists it in is left open.
- `MetroGraphs.MetroGraph.AddEdge` requires a positive weight, although `addEdge` accepts any weight. The lists are assumed to hold positive weights (`Valid()`), which the cost bounds and the search proofs rely on. Every call in `main` passes a positive weight (`MetroData.LinkTable`).
- Unknown station names are a precondition: `stationMap.get` returns null and unboxing it throws.
- Null array entries in `stationNames` are `None`; the name of such a station in a cache key is the string "null".
- `MetroGraphs.MetroGraph.FindShortestPathById`, `MetroGraphs.MetroGraph.FindShortestPath`, `MetroGraphs.SearchAndTrace`, `MetroGraphs.MetroGraph.CacheRoute`, and the least-fare clauses of `CalculateFareWithDiscounts`, `GenerateBill` and `CachedFareIsLeast`: the shortest-route promise holds only when no list holds two edges to the same station. With parallel edges, `calculatePathDistance` counts the first matching edge, which need not be the edge the search relaxed. The real network has no parallel edges (`MetroData.LinkTableSingly`, `MetroNetwork.BuildNetwork`).
- `WebRoutes.FindShortestPath`: shortest under the same condition, for the same reason, and `script.js`'s tables meet it.
- `WebRoutes.FindAlternativeRoutes`: the bound against every route and the completeness promise are stated under the same condition.
- The cache is never invalidated by `addStation` or `addEdge`, as in the code. Keys are sound (one pair, one key) only when station names are distinct and contain no bar (`KeyableNames`). That the real station table has this property is not proved: the proof over the 22 literal names is too costly for the verifier. The real names visibly satisfy it.
- `MetroGraphs.MetroGraph.ChangeRoute`, `FindMinimalTransferPath` and `IsOnPath` return whether they completed. A missing route makes the Java code throw a `NullPointerException`, which is modelled as an early stop with the bill untouched.
- `script.js` reads its constant `stations` and `edges` tables directly; here they are parameters of `WebRoutes.FindShortestPath` and `WebRoutes.FindAlternativeRoutes`. `MetroData.StationTable`, `MetroData.LinkTable` and `MetroData.LinkTableSingly` show that the real tables meet every precondition.
- In `script.js`, `findAlternativeRoutes` with no shortest route calls `calculatePathDistance(null)`, which throws. The model returns `None` instead.
- The JavaScript `distances`, `previous` and `unvisited` objects are sequences indexed by station id. `unvisited` is a sequence without repeats, in insertion order, so `Array.from` and `delete` keep their order.
- The Java `previous` array uses -1 for "none", and so does the model; the JavaScript `null` is also -1.
- The Java getters `getStationNames` and `isValidStation` only read fields and are not modelled.
