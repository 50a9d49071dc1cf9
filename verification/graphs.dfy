/**
 * The undirected weighted graph the railway network is stored in (a networkx
 * `Graph` in the original program), reduced to what the program uses: nodes in
 * insertion order with a position attribute, edges carrying a travel `time` and a
 * fare `cost`, edge lookup `G[u][v]`, `add_node`, `add_edge` and `degree`.
 */
module Graphs {
  import opened Wrappers

  type City = string

  /** A node position (longitude, latitude). */
  datatype Coord = Coord(lng: real, lat: real)

  /** The attributes of one edge: its two weight dimensions. */
  datatype EdgeData = EdgeData(time: real, cost: real)

  /** The weight dimensions an edge carries (the keys 'time' and 'cost'). */
  datatype Dimension = Time | Cost

  function WeightOf(data: EdgeData, d: Dimension): real {
    match d
    case Time => data.time
    case Cost => data.cost
  }

  /** An undirected edge between `u` and `v`. */
  datatype Edge = Edge(u: City, v: City, data: EdgeData)

  /** Nodes in insertion order, their `pos` attributes, and edges in insertion order. */
  datatype Graph = Graph(nodes: seq<City>, pos: map<City, Coord>, edges: seq<Edge>)

  const Empty: Graph := Graph([], map[], [])

  /** Does `e` connect `a` and `b`, in either orientation? */
  predicate Joins(e: Edge, a: City, b: City) {
    (e.u == a && e.v == b) || (e.u == b && e.v == a)
  }

  predicate Distinct<T(==)>(s: seq<T>) {
    forall i, j :: 0 <= i < j < |s| ==> s[i] != s[j]
  }

  /**
   * The invariant of a simple undirected graph: nodes are unique and each has a
   * position, every edge references two existing nodes, and at most one edge
   * joins any unordered pair.
   */
  ghost predicate Valid(g: Graph) {
    && Distinct(g.nodes)
    && (forall n :: n in g.pos <==> n in g.nodes)
    && (forall i :: 0 <= i < |g.edges| ==> g.edges[i].u in g.nodes && g.edges[i].v in g.nodes)
    && (forall i, j :: 0 <= i < j < |g.edges| ==> !Joins(g.edges[j], g.edges[i].u, g.edges[i].v))
  }

  /** The position of the first edge joining `a` and `b`, if any. */
  function EdgeIndex(edges: seq<Edge>, a: City, b: City): (r: Option<nat>)
    ensures r.Some? ==> r.value < |edges| && Joins(edges[r.value], a, b)
    ensures r.Some? ==> forall i :: 0 <= i < r.value ==> !Joins(edges[i], a, b)
    ensures r.None? ==> forall i :: 0 <= i < |edges| ==> !Joins(edges[i], a, b)
  {
    if |edges| == 0 then None
    else if Joins(edges[0], a, b) then Some(0)
    else match EdgeIndex(edges[1..], a, b)
      case None => None
      case Some(k) => Some(k + 1)
  }

  predicate HasEdge(g: Graph, a: City, b: City) {
    EdgeIndex(g.edges, a, b).Some?
  }

  /** `G[a][b]` when the edge exists. */
  function Lookup(g: Graph, a: City, b: City): Option<EdgeData> {
    match EdgeIndex(g.edges, a, b)
    case None => None
    case Some(k) => Some(g.edges[k].data)
  }

  /** `G[a][b]`, for callers that know the edge exists. */
  function Data(g: Graph, a: City, b: City): EdgeData
    requires HasEdge(g, a, b)
  {
    g.edges[EdgeIndex(g.edges, a, b).value].data
  }

  /** `G[a][b][weight]`. */
  function Weight(g: Graph, a: City, b: City, d: Dimension): real
    requires HasEdge(g, a, b)
  {
    WeightOf(Data(g, a, b), d)
  }

  /**
   * Edges are undirected: the lookup does not depend on the orientation. This
   * follows from `EdgeIndex`'s postconditions, which pin down the first
   * joining edge, since `Joins` is symmetric.
   */
  lemma EdgeIndexSymmetric(edges: seq<Edge>, a: City, b: City)
    ensures EdgeIndex(edges, a, b) == EdgeIndex(edges, b, a)
  {
  }

  lemma LookupSymmetric(g: Graph, a: City, b: City)
    ensures Lookup(g, a, b) == Lookup(g, b, a)
  {
  }

  /** `add_node(city, pos=coords)`: a new node is appended; a known node only gets its position updated. */
  function WithNode(g: Graph, city: City, coords: Coord): (r: Graph)
    ensures Valid(g) ==> Valid(r)
    ensures r.edges == g.edges
    ensures forall n :: n in r.nodes <==> n in g.nodes || n == city
    ensures r.pos == g.pos[city := coords]
  {
    if city in g.nodes then g.(pos := g.pos[city := coords])
    else Graph(g.nodes + [city], g.pos[city := coords], g.edges)
  }

  /**
   * `add_edge(a, b, time=.., cost=..)` between two existing nodes: the attributes
   * of an edge already joining the pair are overwritten in place; otherwise a new
   * edge is appended.
   */
  function WithEdge(g: Graph, a: City, b: City, data: EdgeData): (r: Graph)
    requires a in g.nodes && b in g.nodes
    ensures r.nodes == g.nodes && r.pos == g.pos
    ensures |r.edges| == if HasEdge(g, a, b) then |g.edges| else |g.edges| + 1
  {
    match EdgeIndex(g.edges, a, b)
    case Some(k) => g.(edges := g.edges[k := Edge(g.edges[k].u, g.edges[k].v, data)])
    case None => g.(edges := g.edges + [Edge(a, b, data)])
  }

  /**
   * Two edge lists with the same endpoints, position by position, answer every
   * lookup alike (again a consequence of `EdgeIndex`'s postconditions).
   */
  lemma EdgeIndexSameEndpoints(e1: seq<Edge>, e2: seq<Edge>, a: City, b: City)
    requires |e1| == |e2|
    requires forall i :: 0 <= i < |e1| ==> e1[i].u == e2[i].u && e1[i].v == e2[i].v
    ensures EdgeIndex(e1, a, b) == EdgeIndex(e2, a, b)
  {
  }

  /** Appending an edge leaves earlier lookups alone and answers a new pair with the last position. */
  lemma {:induction false} EdgeIndexAppend(edges: seq<Edge>, e: Edge, a: City, b: City)
    ensures EdgeIndex(edges + [e], a, b) ==
      if EdgeIndex(edges, a, b).Some? then EdgeIndex(edges, a, b)
      else if Joins(e, a, b) then Some(|edges|)
      else None
  {
    if |edges| > 0 {
      assert (edges + [e])[1..] == edges[1..] + [e];
      EdgeIndexAppend(edges[1..], e, a, b);
    }
  }

  /** After `add_edge(a, b, ..)`, the pair `{a, b}` carries the new data and every other pair is unchanged. */
  lemma WithEdgeLookup(g: Graph, a: City, b: City, data: EdgeData, x: City, y: City)
    requires a in g.nodes && b in g.nodes
    ensures Lookup(WithEdge(g, a, b, data), x, y) ==
      if Joins(Edge(a, b, data), x, y) then Some(data) else Lookup(g, x, y)
  {
    var r := WithEdge(g, a, b, data);
    match EdgeIndex(g.edges, a, b)
    case Some(k) =>
      EdgeIndexSameEndpoints(r.edges, g.edges, x, y);
    case None =>
      EdgeIndexAppend(g.edges, Edge(a, b, data), x, y);
  }

  /** `add_edge` between existing nodes keeps the graph simple and its edges anchored. */
  lemma WithEdgeValid(g: Graph, a: City, b: City, data: EdgeData)
    requires Valid(g) && a in g.nodes && b in g.nodes
    ensures Valid(WithEdge(g, a, b, data))
  {
  }

  /** How many ends of `e` are at `n` (a self-loop counts twice). */
  function Ends(e: Edge, n: City): nat {
    (if e.u == n then 1 else 0) + (if e.v == n then 1 else 0)
  }

  function EdgeDegree(edges: seq<Edge>, n: City): nat {
    if |edges| == 0 then 0 else EdgeDegree(edges[..|edges| - 1], n) + Ends(edges[|edges| - 1], n)
  }

  /** `G.degree(n)`: the number of edge ends at `n`. */
  function Degree(g: Graph, n: City): nat {
    EdgeDegree(g.edges, n)
  }

  /** `add_node`, `add_edge` and the node list of a networkx graph object, updated in place. */
  class RailwayGraph {
    var nodes: seq<City>
    var pos: map<City, Coord>
    var edges: seq<Edge>

    /** The graph this object currently holds. */
    function Value(): Graph
      reads this
    {
      Graph(nodes, pos, edges)
    }

    /** `nx.Graph()`. */
    constructor ()
      ensures Value() == Empty
    {
      nodes, pos, edges := [], map[], [];
    }

    /** `city in G.nodes`. */
    predicate HasNode(city: City)
      reads this
    {
      city in nodes
    }

    method AddNode(city: City, coords: Coord)
      modifies this
      ensures Value() == WithNode(old(Value()), city, coords)
    {
      if city !in nodes {
        nodes := nodes + [city];
      }
      pos := pos[city := coords];
    }

    method AddEdge(a: City, b: City, data: EdgeData)
      requires HasNode(a) && HasNode(b)
      modifies this
      ensures Value() == WithEdge(old(Value()), a, b, data)
    {
      var k := EdgeIndex(edges, a, b);
      if k.Some? {
        edges := edges[k.value := Edge(edges[k.value].u, edges[k.value].v, data)];
      } else {
        edges := edges + [Edge(a, b, data)];
      }
    }
  }
}
