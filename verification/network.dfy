/**
 * Building the railway network from the city table and the railway table, and
 * the summary statistics reported about it.
 */
module Network {
  import opened Wrappers
  import opened Graphs

  /** One row of the railway table: two city names, travel time and fare. */
  datatype RailwayRow = RailwayRow(city1: City, city2: City, time: real, cost: real)

  /** The city table: names in table order, each with its coordinates. */
  type CityTable = seq<(City, Coord)>

  function Names(cities: CityTable): (r: seq<City>)
    ensures |r| == |cities| && forall i :: 0 <= i < |r| ==> r[i] == cities[i].0
  {
    if |cities| == 0 then [] else Names(cities[..|cities| - 1]) + [cities[|cities| - 1].0]
  }

  /** `{city: coords for city, coords in CITIES.items()}`: a later entry for a name wins. */
  function PosMap(cities: CityTable): (m: map<City, Coord>)
    ensures forall n :: n in m <==> n in Names(cities)
  {
    if |cities| == 0 then map[]
    else PosMap(cities[..|cities| - 1])[cities[|cities| - 1].0 := cities[|cities| - 1].1]
  }

  /** Each name maps to the coordinates of its last entry in the table. */
  lemma {:induction false} PosMapValues(cities: CityTable)
    ensures forall i :: 0 <= i < |cities| && (forall j :: i < j < |cities| ==> cities[j].0 != cities[i].0) ==>
      cities[i].0 in PosMap(cities) && PosMap(cities)[cities[i].0] == cities[i].1
  {
    if |cities| > 0 {
      var init := cities[..|cities| - 1];
      PosMapValues(init);
      forall i | 0 <= i < |cities| && (forall j :: i < j < |cities| ==> cities[j].0 != cities[i].0)
        ensures cities[i].0 in PosMap(cities) && PosMap(cities)[cities[i].0] == cities[i].1
      {
        if i < |init| {
          assert forall j :: i < j < |init| ==> init[j] == cities[j];
          assert init[i] == cities[i];
        }
      }
    }
  }

  /** The nodes after the first loop: `add_node` for every city, in table order. */
  function AddCities(g: Graph, cities: CityTable): Graph {
    if |cities| == 0 then g
    else WithNode(AddCities(g, cities[..|cities| - 1]), cities[|cities| - 1].0, cities[|cities| - 1].1)
  }

  /** One step of the second loop: the row becomes an edge only when both endpoints are nodes. */
  function AddRow(g: Graph, row: RailwayRow): Graph {
    if row.city1 in g.nodes && row.city2 in g.nodes
    then WithEdge(g, row.city1, row.city2, EdgeData(row.time, row.cost))
    else g
  }

  function AddRows(g: Graph, rows: seq<RailwayRow>): Graph {
    if |rows| == 0 then g else AddRow(AddRows(g, rows[..|rows| - 1]), rows[|rows| - 1])
  }

  /** The graph `create_railway_network` builds from the two tables. */
  function Build(cities: CityTable, rows: seq<RailwayRow>): Graph {
    AddRows(AddCities(Empty, cities), rows)
  }

  /**
   * The data of the last row that joins `a` and `b` and names only cities of
   * `names`: the row whose `add_edge` is the last to write that pair.
   */
  function LastAcceptedRow(rows: seq<RailwayRow>, names: seq<City>, a: City, b: City): Option<EdgeData> {
    if |rows| == 0 then None
    else
      var row := rows[|rows| - 1];
      if row.city1 in names && row.city2 in names && Joins(Edge(row.city1, row.city2, EdgeData(row.time, row.cost)), a, b)
      then Some(EdgeData(row.time, row.cost))
      else LastAcceptedRow(rows[..|rows| - 1], names, a, b)
  }

  /** Adding distinct cities to the empty graph yields exactly the city table's names and positions. */
  lemma {:induction false} AddCitiesNodes(cities: CityTable)
    requires Distinct(Names(cities))
    ensures AddCities(Empty, cities) == Graph(Names(cities), PosMap(cities), [])
    ensures Valid(AddCities(Empty, cities))
  {
    if |cities| > 0 {
      var init := cities[..|cities| - 1];
      assert Names(init) == Names(cities)[..|cities| - 1];
      AddCitiesNodes(init);
      assert cities[|cities| - 1].0 !in Names(init) by {
        assert Names(cities)[|cities| - 1] == cities[|cities| - 1].0;
      }
    }
  }

  /** The edge loop never changes the node list or the positions. */
  lemma {:induction false} AddRowsKeepsNodes(g: Graph, rows: seq<RailwayRow>)
    ensures AddRows(g, rows).nodes == g.nodes && AddRows(g, rows).pos == g.pos
  {
    if |rows| > 0 {
      AddRowsKeepsNodes(g, rows[..|rows| - 1]);
    }
  }

  /** The edge loop keeps the graph simple and every edge anchored at two nodes. */
  lemma {:induction false} AddRowsValid(g: Graph, rows: seq<RailwayRow>)
    requires Valid(g)
    ensures Valid(AddRows(g, rows))
  {
    if |rows| > 0 {
      AddRowsValid(g, rows[..|rows| - 1]);
      var h := AddRows(g, rows[..|rows| - 1]);
      var row := rows[|rows| - 1];
      if row.city1 in h.nodes && row.city2 in h.nodes {
        WithEdgeValid(h, row.city1, row.city2, EdgeData(row.time, row.cost));
      }
    }
  }

  /** After the edge loop, each pair carries the data of its last accepted row, or what it had before. */
  lemma {:induction false} AddRowsLookup(g: Graph, rows: seq<RailwayRow>, a: City, b: City)
    ensures Lookup(AddRows(g, rows), a, b) ==
      match LastAcceptedRow(rows, g.nodes, a, b)
      case Some(d) => Some(d)
      case None => Lookup(g, a, b)
  {
    if |rows| > 0 {
      var init := rows[..|rows| - 1];
      var row := rows[|rows| - 1];
      AddRowsLookup(g, init, a, b);
      AddRowsKeepsNodes(g, init);
      var h := AddRows(g, init);
      if row.city1 in h.nodes && row.city2 in h.nodes {
        WithEdgeLookup(h, row.city1, row.city2, EdgeData(row.time, row.cost), a, b);
      }
    }
  }

  /**
   * What `create_railway_network` builds: every city is a node, in table order,
   * with its coordinates; the graph is simple with every edge between two nodes;
   * and a pair of cities is joined exactly when some row with two known cities
   * names it, carrying the time and fare of the last such row.
   */
  lemma BuildProperties(cities: CityTable, rows: seq<RailwayRow>)
    requires Distinct(Names(cities))
    ensures Build(cities, rows).nodes == Names(cities)
    ensures Build(cities, rows).pos == PosMap(cities)
    ensures Valid(Build(cities, rows))
    ensures forall a, b :: Lookup(Build(cities, rows), a, b) == LastAcceptedRow(rows, Names(cities), a, b)
  {
    AddCitiesNodes(cities);
    AddRowsKeepsNodes(AddCities(Empty, cities), rows);
    AddRowsValid(AddCities(Empty, cities), rows);
    forall a, b
      ensures Lookup(Build(cities, rows), a, b) == LastAcceptedRow(rows, Names(cities), a, b)
    {
      AddRowsLookup(AddCities(Empty, cities), rows, a, b);
    }
  }

  /**
   * `create_railway_network`: adds every city as a node, then every railway row
   * whose two cities are both nodes as an edge; returns the graph and the
   * position dictionary.
   */
  method CreateRailwayNetwork(cities: CityTable, rows: seq<RailwayRow>) returns (G: RailwayGraph, pos: map<City, Coord>)
    requires Distinct(Names(cities))
    ensures fresh(G)
    ensures G.Value() == Build(cities, rows)
    ensures G.nodes == Names(cities) && G.pos == pos && pos == PosMap(cities)
    ensures Valid(G.Value())
    ensures forall a, b :: Lookup(G.Value(), a, b) == LastAcceptedRow(rows, Names(cities), a, b)
  {
    G := new RailwayGraph();
    for i := 0 to |cities|
      invariant G.Value() == AddCities(Empty, cities[..i])
    {
      assert cities[..i + 1][..i] == cities[..i];
      G.AddNode(cities[i].0, cities[i].1);
    }
    assert cities[..|cities|] == cities;
    ghost var base := G.Value();
    for i := 0 to |rows|
      invariant G.Value() == AddRows(base, rows[..i])
    {
      assert rows[..i + 1][..i] == rows[..i];
      var row := rows[i];
      if G.HasNode(row.city1) && G.HasNode(row.city2) {
        G.AddEdge(row.city1, row.city2, EdgeData(row.time, row.cost));
      }
    }
    assert rows[..|rows|] == rows;
    pos := PosMap(cities);
    BuildProperties(cities, rows);
  }

  /** The summary `get_network_stats` reports. */
  datatype NetworkStats = NetworkStats(
    nodeCount: nat,
    edgeCount: nat,
    avgDegree: real,
    maxDegreeCity: Option<City>,
    maxDegree: nat,
    isConnected: bool)

  /** The sum of the degrees of `ns`. */
  function SumDegrees(g: Graph, ns: seq<City>): nat {
    if |ns| == 0 then 0 else Degree(g, ns[0]) + SumDegrees(g, ns[1..])
  }

  /** How often `x` occurs in `ns`. */
  function Occurrences(ns: seq<City>, x: City): nat {
    if |ns| == 0 then 0 else (if ns[0] == x then 1 else 0) + Occurrences(ns[1..], x)
  }

  lemma {:induction false} OccurrencesDistinct(ns: seq<City>, x: City)
    requires Distinct(ns) && x in ns
    ensures Occurrences(ns, x) == 1
  {
    if ns[0] != x {
      OccurrencesDistinct(ns[1..], x);
    } else {
      OccurrencesAbsent(ns[1..], x);
    }
  }

  lemma {:induction false} OccurrencesAbsent(ns: seq<City>, x: City)
    requires x !in ns
    ensures Occurrences(ns, x) == 0
  {
    if |ns| > 0 {
      OccurrencesAbsent(ns[1..], x);
    }
  }

  /** One more edge adds one to the degree sum for each of its ends found among `ns`. */
  lemma {:induction false} SumDegreesSnoc(g: Graph, e: Edge, ns: seq<City>)
    ensures SumDegrees(g.(edges := g.edges + [e]), ns) == SumDegrees(g, ns) + Occurrences(ns, e.u) + Occurrences(ns, e.v)
  {
    var h := g.(edges := g.edges + [e]);
    if |ns| > 0 {
      assert h.edges[..|h.edges| - 1] == g.edges;
      assert Degree(h, ns[0]) == Degree(g, ns[0]) + Ends(e, ns[0]);
      SumDegreesSnoc(g, e, ns[1..]);
    }
  }

  /** The handshake identity: the degrees of a valid graph add up to twice its edge count. */
  lemma {:induction false} Handshake(g: Graph)
    requires Valid(g)
    ensures SumDegrees(g, g.nodes) == 2 * |g.edges|
    decreases |g.edges|
  {
    if |g.edges| == 0 {
      ZeroDegrees(g, g.nodes);
    } else {
      var e := g.edges[|g.edges| - 1];
      var h := g.(edges := g.edges[..|g.edges| - 1]);
      assert g == h.(edges := h.edges + [e]);
      Handshake(h);
      SumDegreesSnoc(h, e, g.nodes);
      OccurrencesDistinct(g.nodes, e.u);
      OccurrencesDistinct(g.nodes, e.v);
    }
  }

  lemma {:induction false} ZeroDegrees(g: Graph, ns: seq<City>)
    requires |g.edges| == 0
    ensures SumDegrees(g, ns) == 0
  {
    if |ns| > 0 {
      ZeroDegrees(g, ns[1..]);
    }
  }

  /**
   * `max(degrees, key=degrees.get)`: the position of the first node of `ns`
   * whose degree is largest.
   */
  function FirstMaxDegree(g: Graph, ns: seq<City>): (k: nat)
    requires |ns| > 0
    ensures k < |ns|
    ensures forall j :: 0 <= j < |ns| ==> Degree(g, ns[j]) <= Degree(g, ns[k])
    ensures forall j :: 0 <= j < k ==> Degree(g, ns[j]) < Degree(g, ns[k])
  {
    if |ns| == 1 then 0
    else
      var k := FirstMaxDegree(g, ns[1..]);
      if Degree(g, ns[0]) >= Degree(g, ns[k + 1]) then 0 else k + 1
  }

  function MaxDegreeCity(g: Graph): Option<City> {
    if |g.nodes| == 0 then None else Some(g.nodes[FirstMaxDegree(g, g.nodes)])
  }

  /**
   * `get_network_stats`, with the maximum degree read whenever a city was found
   * (see `MaxDegreeAsWritten` for the test the program actually makes).
   * Connectivity is computed by the graph library and is passed in.
   */
  function GetNetworkStats(g: Graph, connected: bool): (s: NetworkStats)
    requires Valid(g)
    ensures s.nodeCount == |g.nodes| && s.edgeCount == |g.edges| && s.isConnected == connected
    ensures s.avgDegree == if |g.nodes| == 0 then 0.0 else (2 * |g.edges|) as real / |g.nodes| as real
    ensures s.maxDegreeCity.None? <==> |g.nodes| == 0
    ensures s.maxDegreeCity.Some? ==>
      var c := s.maxDegreeCity.value;
      && c in g.nodes
      && s.maxDegree == Degree(g, c)
      && (forall j :: 0 <= j < |g.nodes| ==> Degree(g, g.nodes[j]) <= s.maxDegree)
      && (forall j :: 0 <= j < |g.nodes| && Degree(g, g.nodes[j]) == s.maxDegree ==> g.nodes[j] == c || c in g.nodes[..j])
    ensures s.maxDegreeCity.None? ==> s.maxDegree == 0
  {
    Handshake(g);
    var avg := if |g.nodes| > 0 then SumDegrees(g, g.nodes) as real / |g.nodes| as real else 0.0;
    var best := MaxDegreeCity(g);
    var maxDegree := if best.Some? then Degree(g, best.value) else 0;
    if best.Some? then
      var k := FirstMaxDegree(g, g.nodes);
      assert forall j :: 0 <= j < |g.nodes| && Degree(g, g.nodes[j]) == maxDegree ==> k <= j;
      assert forall j :: 0 <= j < |g.nodes| && k < j ==> g.nodes[k] in g.nodes[..j];
      NetworkStats(|g.nodes|, |g.edges|, avg, best, maxDegree, connected)
    else
      NetworkStats(|g.nodes|, |g.edges|, avg, best, maxDegree, connected)
  }

  /**
   * The `max_degree` field as the program computes it: `degrees.get(c, 0) if c
   * else 0`, where `c` is the city name, so a city whose name is the empty
   * string reports 0.
   */
  function MaxDegreeAsWritten(g: Graph): (r: nat)
    ensures MaxDegreeCity(g) == Some("") ==> r == 0
    ensures Valid(g) && MaxDegreeCity(g) != Some("") ==> r == GetNetworkStats(g, true).maxDegree
  {
    match MaxDegreeCity(g)
    case None => 0
    case Some(c) => if c != "" then Degree(g, c) else 0
  }

  /** A two-city graph whose first city is named "" shows the difference. */
  lemma EmptyNameHidesMaxDegree()
    ensures
      var g := Graph(["", "A"], map["" := Coord(0.0, 0.0), "A" := Coord(1.0, 1.0)], [Edge("", "A", EdgeData(1.0, 1.0))]);
      && Valid(g)
      && MaxDegreeCity(g) == Some("")
      && MaxDegreeAsWritten(g) == 0
      && GetNetworkStats(g, true).maxDegree == 1
  {
  }
}
