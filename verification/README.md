# Railway network route analysis — a Dafny model

This project models the route-result logic of a high-speed railway network
analyser. Cities are the nodes of an undirected graph. Railway lines are edges
that carry a travel `time` and a fare `cost`. The model covers:

- building the graph from the city table and the railway table, and the
  network statistics (node and edge counts, average degree, busiest city);
- path weights and per-segment details;
- the three search wrappers, which turn the graph library's answer into a
  `(path, total, error)` triple;
- the dual-objective route record: a time-optimal path and a cost-optimal path,
  each with its cross-metric;
- the ranking of betweenness scores into a top-N list;
- the category lookup for a city, and the checks a path request goes through
  before routing.

The searches themselves (breadth-first, Dijkstra, A*) and the betweenness and
connectivity computations belong to the graph library (networkx), whose code is
not part of this model. The searches are a `Library` of functions. The predicate
`GraphAlgorithms.Conforms` states their contract:

- breadth-first search and A* check both endpoints first: "node not found"
  exactly when an endpoint is missing;
- Dijkstra checks only the source: "node not found" exactly when the source is
  missing, while a missing target is never reached and counts as "no path";
- otherwise "no path" exactly when no walk exists;
- otherwise a walk from start to end;
- breadth-first answers are hop-minimal;
- Dijkstra answers are weight-minimal in the requested dimension;
- A* answers are weight-minimal for `cost`, where the heuristic is zero.

Betweenness scores and connectivity are inputs.

Modules:

- `Wrappers` (wrappers.dfy): the `Option` type.
- `Graphs` (graphs.dfy): the graph as a value (nodes in insertion order, positions,
  edges in insertion order) and `G[u][v]` lookup. Also `add_node`/`add_edge` as
  functions, the `RailwayGraph` class that applies them in place, and `degree`.
- `Network` (network.dfy): `create_railway_network` and `get_network_stats`.
- `GraphAlgorithms` (graph_algorithms.dfy): everything in
  `algorithms/graph_algorithms.py` except the heuristic.
- `App` (app.dfy): `get_city_category` and the checks of `calculate_path`.

Weights (travel time in hours, which may be fractional, and fares), scores
and coordinates are reals. An unreachable
(`float('inf')`) total is `None`.

## Model

| member | source | states |
|---|---|---|
| `Graphs.EdgeIndex` | algorithms/graph_algorithms.py:135 | the edge `G[u][v]` reads is an edge joining `u` and `v` in either orientation; none exists exactly when no edge joins them |
| `Graphs.LookupSymmetric` | algorithms/graph_algorithms.py:135 | edges are undirected: `G[a][b]` and `G[b][a]` give the same data |
| `Graphs.WithNode` | core/network.py:24-25 | `add_node` keeps the graph valid, adds the city to the node set, sets its position and leaves the edges alone |
| `Graphs.WithEdge` | core/network.py:30 | `add_edge` keeps nodes and positions; the edge count grows by one exactly when the pair was not yet joined |
| `Graphs.WithEdgeLookup` | core/network.py:30 | after `add_edge(a, b, ..)` the pair `{a, b}` carries the new time and cost and every other pair's lookup is unchanged |
| `Graphs.WithEdgeValid` | core/network.py:28-30 | adding an edge between two existing nodes keeps every edge between nodes and at most one edge per unordered pair |
| `Graphs.RailwayGraph.constructor` | core/network.py:21 | a new graph object holds the empty graph |
| `Graphs.RailwayGraph.AddNode` | core/network.py:25 | the object's new graph is `add_node` applied to its old graph |
| `Graphs.RailwayGraph.AddEdge` | core/network.py:30 | the object's new graph is `add_edge` applied to its old graph, allowed only between existing nodes |
| `Network.PosMap` | core/network.py:33 | the position dictionary has exactly the city table's names as keys |
| `Network.PosMapValues` | core/network.py:33 | each name maps to the coordinates of its last entry in the city table |
| `Network.AddCitiesNodes` | core/network.py:24-25 | adding the cities to an empty graph gives exactly the table's names, in table order, with the table's coordinates, and no edges |
| `Network.AddRowsKeepsNodes` | core/network.py:28-30 | the edge loop never changes the nodes or their positions |
| `Network.AddRowsValid` | core/network.py:28-30 | the edge loop keeps the graph valid, so every edge references two nodes |
| `Network.AddRowsLookup` | core/network.py:28-30 | after the edge loop a pair carries the time and cost of the last row that names it with two known cities; rows naming an unknown city add nothing |
| `Network.BuildProperties` | core/network.py:13-35 | the built graph's nodes are the city table's names in order; its positions are the table's coordinates; it is valid; a pair is joined exactly when an accepted row names it, with that row's time and cost |
| `Network.CreateRailwayNetwork` | core/network.py:13-35 | the two loops build exactly that graph, and the returned position dictionary maps the table's names to their coordinates |
| `Network.Handshake` | core/network.py:41 | the degrees of a valid graph add up to twice its edge count |
| `Network.FirstMaxDegree` | core/network.py:42 | the chosen node has the largest degree, and every earlier node's degree is strictly smaller |
| `Network.GetNetworkStats` | core/network.py:38-53 | the node and edge counts are the graph's sizes; the average degree is twice the edge count over the node count, or 0 for an empty graph; the busiest city is absent exactly for an empty graph and is otherwise the first node of maximum degree, reported with that degree |
| `Network.MaxDegreeAsWritten` | core/network.py:42-49 | the as-written `max_degree` is 0 when the busiest city is named "", and otherwise equals the corrected statistic |
| `Network.EmptyNameHidesMaxDegree` | core/network.py:49 | on a graph whose busiest city is named "", the as-written `max_degree` is 0 while that city's degree is 1 |
| `GraphAlgorithms.PathWeightAppend` | algorithms/graph_algorithms.py:20-24 | appending a node to a path adds exactly the weight of the new last edge, in the chosen dimension |
| `GraphAlgorithms.PathWeight` | algorithms/graph_algorithms.py:20-24 | an empty or one-node path weighs 0; with non-negative edge weights every path weight is non-negative |
| `GraphAlgorithms.Segments` | algorithms/graph_algorithms.py:127-142 | a path with fewer than two nodes has no segments; otherwise it has one segment per consecutive pair, the i-th joining `path[i]` to `path[i+1]` with that edge's time and cost |
| `GraphAlgorithms.GetPathDetails` | algorithms/graph_algorithms.py:127-142 | the loop produces exactly those segments: count, endpoints, time and cost of each |
| `GraphAlgorithms.DetailsSumIsPathWeight` | algorithms/graph_algorithms.py:20-24 | the `time` (resp. `cost`) fields of a path's details add up to the path's weight in that dimension |
| `GraphAlgorithms.BfsShortestPath` | algorithms/graph_algorithms.py:26-32 | the exception escapes exactly when an endpoint is missing; a path is reported exactly when one exists, and it is hop-minimal with its hop count as total; otherwise no path, no total and the "no path" message |
| `GraphAlgorithms.AStarShortestPath` | algorithms/graph_algorithms.py:34-46 | as above, with the path's weight in the requested dimension as total; the path is cost-optimal when `cost` is requested |
| `GraphAlgorithms.DijkstraShortestPath` | algorithms/graph_algorithms.py:48-55 | the exception escapes exactly when the start is missing; a missing end gives no path, no total and the "no path" message; a path is reported exactly when one exists, it is weight-minimal in the requested dimension, and its weight is the total |
| `GraphAlgorithms.WeightedSearch` | algorithms/graph_algorithms.py:83-101 | tag "astar" selects A* and every other tag Dijkstra, with those searches' guarantees; the exception escapes for a missing start, and for a missing end only under "astar" |
| `GraphAlgorithms.FindDualPaths` | algorithms/graph_algorithms.py:57-119 | the exception escapes for a missing start, and for a missing end only under "bfs" or "astar" (Dijkstra reports an empty record); start, end and tag are echoed; each path slot is filled exactly when the pair is connected; a present path's totals, cross-metric and details are its own weights and segments, while an absent path has none; in "bfs" mode one hop-minimal path fills both slots with mirrored totals; otherwise the cost path is cost-optimal and, outside "astar", the time path is time-optimal |
| `GraphAlgorithms.DetailsAgreeWithTotals` | algorithms/graph_algorithms.py:113-117 | in a route record the detail lists add up to the reported totals and cross-metrics |
| `GraphAlgorithms.InsertByScoreStable` | algorithms/graph_algorithms.py:124 | inserting an entry puts it ahead of the entries with its score and keeps their order |
| `GraphAlgorithms.SortByScoreDescending` | algorithms/graph_algorithms.py:124 | the sorted list is a permutation of the scores in non-increasing order, and entries with equal scores keep their input order |
| `GraphAlgorithms.SliceTo` | algorithms/graph_algorithms.py:125 | `s[:n]` is the prefix of length `min(n, len(s))`, or for negative `n` the list without its last `-n` entries |
| `GraphAlgorithms.CalculateBetweennessCentrality` | algorithms/graph_algorithms.py:121-125 | the top list has `min(top_n, node count)` entries, all nodes; it is a non-increasing prefix of the stable descending sort; no entry left out scores higher than an entry kept |
| `App.GetCityCategory` | app.py:107-111 | the result is the first category, in table order, whose list contains the city; it is "其他" when none does |
| `App.DispatchPathRequest` | app.py:54-68 | a missing or empty start or end is rejected with status 400 and the error message; otherwise a non-empty waypoint list selects multi-stop routing, and dual-path routing runs with the requested algorithm, "dijkstra" by default |

## Left out

- The graph library's searches, betweenness centrality and `is_connected`: they are inputs, bound by the `Conforms` contract or passed as values. Their code is not part of this model.
- `heuristic` (algorithms/graph_algorithms.py:12-18) computes a floating-point square root. A* uses it for `time` only and a zero heuristic otherwise.
- GraphAlgorithms.AStarShortestPath: claims optimality for `cost` only. Whether the Euclidean heuristic is admissible for `time` depends on the coordinates and travel times, which floating point and the data tables decide.
- GraphAlgorithms.FindDualPaths: a missing key and a `float('inf')` total are both `None`. The JSON output therefore differs only in that representation.
- GraphAlgorithms.PathWeight: requires every consecutive pair to be an edge. The program would raise `KeyError` otherwise, and its callers only pass library paths, which are walks. A `None` path is never passed and is not modelled separately from `[]`.
- Graphs.WithEdge: requires both endpoints to be nodes. `add_edge` would create missing nodes, but the only call site filters them out first.
- Network.CreateRailwayNetwork: the city table is a dictionary, so its names are distinct; the model requires this. The graph object is updated in place through `RailwayGraph`, but the analyses read its value, which never changes after construction.
- Network.GetNetworkStats: uses the corrected `max_degree` (see Findings). It requires a valid graph, which every graph the library builds is. The library rejects connectivity of the empty graph, and that case is not modelled: connectivity is a boolean input.
- GraphAlgorithms.CalculateBetweennessCentrality: requires the library's scores to list every node once, in node order, as the library's score dictionary does.
- Weights are exact reals: floating-point rounding of fractional hours in the sums is not modelled.
- The weight dimension is a two-valued type. An unknown dimension name, which the program would look up as a missing key, cannot be expressed.
- App.DispatchPathRequest: a JSON `null` algorithm reaches routing as `None` in the program; the model treats it like a missing one. A body that is not JSON, and the Flask responses and the global error handler, are not modelled.
- Multi-stop routing, minimum-spanning-tree step tracing and the advanced metrics (`find_multi_stop_path`, `get_mst_steps`, `calculate_advanced_metrics`) are imported by app.py, but their implementation is not part of this model. The model only records when multi-stop routing is chosen.
- Map drawing, the console menu, the HTTP routes that only serialise data, and the static city, railway and outline tables are presentation, I/O and data.
- Edge iteration order inside the graph library, which only the library's own traversals depend on, is not modelled.

## Findings

| source | as written | input that shows it | evidently intended | confidence | as-written member | corrected member |
|---|---|---|---|---|---|---|
| core/network.py:49 | `max_degree` is read only `if max_degree_city`, a truthiness test of the city name | a graph whose first node of maximum degree is named `""` (see `Network.EmptyNameHidesMaxDegree`: nodes `""` and `"A"` joined by one edge) reports `max_degree` 0 although that city has degree 1 | read the degree whenever a city was found (`is not None`) | low impact: city names in the table are non-empty; not executed | `Network.MaxDegreeAsWritten` | `Network.GetNetworkStats` |
