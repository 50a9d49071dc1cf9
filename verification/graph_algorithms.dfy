/**
 * Route results around the graph library's searches: path weights, per-segment
 * details, the three search wrappers, the dual-objective route record, and the
 * ranking of betweenness scores.
 *
 * The searches themselves (breadth-first, Dijkstra, A*) belong to the graph
 * library. They enter the model as a `Library` of functions together with the
 * contract `Conforms` that their answers are assumed to meet.
 */
module GraphAlgorithms {
  import opened Wrappers
  import opened Graphs

  // ---------------------------------------------------------------------------
  // Paths and their weights

  /** Every consecutive pair of `p` is an edge of `g`. */
  predicate Linked(g: Graph, p: seq<City>) {
    forall i :: 0 <= i < |p| - 1 ==> HasEdge(g, p[i], p[i + 1])
  }

  /** Every edge has a non-negative time and cost. */
  ghost predicate NonNegativeWeights(g: Graph) {
    forall i :: 0 <= i < |g.edges| ==> g.edges[i].data.time >= 0.0 && g.edges[i].data.cost >= 0.0
  }

  /**
   * `get_path_weight`: the sum of one weight dimension over the consecutive
   * pairs of `p`; 0 for an empty or one-node path.
   */
  function PathWeight(g: Graph, p: seq<City>, d: Dimension): (r: real)
    requires Linked(g, p)
    ensures |p| < 2 ==> r == 0.0
    ensures NonNegativeWeights(g) ==> r >= 0.0
    decreases |p|
  {
    if |p| < 2 then 0.0
    else
      assert Linked(g, p[1..]) by {
        forall i | 0 <= i < |p| - 2 ensures HasEdge(g, p[1..][i], p[1..][i + 1]) {
          assert HasEdge(g, p[i + 1], p[i + 2]);
        }
      }
      Weight(g, p[0], p[1], d) + PathWeight(g, p[1..], d)
  }

  /** Extending a path by one node adds exactly the weight of the new last edge. */
  lemma {:induction false} PathWeightAppend(g: Graph, p: seq<City>, v: City, d: Dimension)
    requires |p| > 0 && Linked(g, p + [v])
    ensures Linked(g, p) && HasEdge(g, p[|p| - 1], v)
    ensures PathWeight(g, p + [v], d) == PathWeight(g, p, d) + Weight(g, p[|p| - 1], v, d)
  {
    forall i | 0 <= i < |p| - 1 ensures HasEdge(g, p[i], p[i + 1]) {
      assert (p + [v])[i] == p[i] && (p + [v])[i + 1] == p[i + 1];
    }
    assert (p + [v])[|p| - 1] == p[|p| - 1] && (p + [v])[|p|] == v;
    if |p| > 1 {
      assert (p + [v])[1..] == p[1..] + [v];
      PathWeightAppend(g, p[1..], v, d);
    }
  }


  // ---------------------------------------------------------------------------
  // Segment details

  /** One entry of a detail list: an edge of the path with both of its weights. */
  datatype Segment = Segment(source: City, target: City, time: real, cost: real)

  function SegmentOf(g: Graph, a: City, b: City): Segment
    requires HasEdge(g, a, b)
  {
    var data := Data(g, a, b);
    Segment(a, b, data.time, data.cost)
  }

  /** The detail list of a path: one segment per consecutive pair, in path order. */
  function Segments(g: Graph, p: seq<City>): (r: seq<Segment>)
    requires Linked(g, p)
    ensures |r| == if |p| < 2 then 0 else |p| - 1
    ensures forall i :: 0 <= i < |r| ==> r[i] == SegmentOf(g, p[i], p[i + 1])
    decreases |p|
  {
    if |p| < 2 then []
    else
      assert Linked(g, p[1..]) by {
        forall i | 0 <= i < |p| - 2 ensures HasEdge(g, p[1..][i], p[1..][i + 1]) {
          assert HasEdge(g, p[i + 1], p[i + 2]);
        }
      }
      [SegmentOf(g, p[0], p[1])] + Segments(g, p[1..])
  }

  /** `get_path_details`: fewer than two nodes give no segments; otherwise one per consecutive pair. */
  method GetPathDetails(g: Graph, path: seq<City>) returns (details: seq<Segment>)
    requires Linked(g, path)
    ensures details == Segments(g, path)
    ensures |path| < 2 ==> details == []
    ensures |path| >= 2 ==> |details| == |path| - 1
    ensures forall i :: 0 <= i < |details| ==>
      && details[i].source == path[i] && details[i].target == path[i + 1]
      && details[i].time == Weight(g, path[i], path[i + 1], Time)
      && details[i].cost == Weight(g, path[i], path[i + 1], Cost)
  {
    if |path| < 2 {
      return [];
    }
    details := [];
    for i := 0 to |path| - 1
      invariant |details| == i
      invariant forall k :: 0 <= k < i ==> details[k] == SegmentOf(g, path[k], path[k + 1])
    {
      var u, v := path[i], path[i + 1];
      var data := Data(g, u, v);
      details := details + [Segment(u, v, data.time, data.cost)];
    }
    var expected := Segments(g, path);
    forall k | 0 <= k < |details|
      ensures details[k] == expected[k]
      ensures details[k].source == path[k] && details[k].target == path[k + 1]
      ensures details[k].time == Weight(g, path[k], path[k + 1], Time)
      ensures details[k].cost == Weight(g, path[k], path[k + 1], Cost)
    {
      assert details[k] == SegmentOf(g, path[k], path[k + 1]);
    }
  }

  /** The sum of one weight field over a detail list. */
  function SumField(segments: seq<Segment>, d: Dimension): real {
    if |segments| == 0 then 0.0
    else (match d case Time => segments[0].time case Cost => segments[0].cost) + SumField(segments[1..], d)
  }

  /** The `time` (or `cost`) fields of a path's details add up to the path's weight in that dimension. */
  lemma {:induction false} DetailsSumIsPathWeight(g: Graph, p: seq<City>, d: Dimension)
    requires Linked(g, p)
    ensures SumField(Segments(g, p), d) == PathWeight(g, p, d)
    decreases |p|
  {
    if |p| >= 2 {
      DetailsSumIsPathWeight(g, p[1..], d);
      assert Segments(g, p)[1..] == Segments(g, p[1..]);
    }
  }

  // ---------------------------------------------------------------------------
  // The graph library's searches, as contracts

  /** A walk from `s` to `t`: starts at `s`, ends at `t`, visits nodes, follows edges. */
  ghost predicate IsWalk(g: Graph, p: seq<City>, s: City, t: City) {
    && |p| > 0 && p[0] == s && p[|p| - 1] == t
    && (forall i :: 0 <= i < |p| ==> p[i] in g.nodes)
    && Linked(g, p)
  }

  ghost predicate Reachable(g: Graph, s: City, t: City) {
    exists p :: IsWalk(g, p, s, t)
  }

  /** `p` has no more edges than any other walk between its ends. */
  ghost predicate HopMinimal(g: Graph, p: seq<City>, s: City, t: City) {
    IsWalk(g, p, s, t) && forall q :: IsWalk(g, q, s, t) ==> |p| <= |q|
  }

  /** `p` weighs no more than any other walk between its ends in dimension `d`. */
  ghost predicate Shortest(g: Graph, p: seq<City>, s: City, t: City, d: Dimension) {
    IsWalk(g, p, s, t) && forall q :: IsWalk(g, q, s, t) ==> PathWeight(g, p, d) <= PathWeight(g, q, d)
  }

  /** What a library search answers: a path, "no path", or "node not found". */
  datatype SearchOutcome = Found(path: seq<City>) | NoPath | UnknownNode

  /** The graph library's three path searches. */
  datatype Library = Library(
    shortestPath: (City, City) -> SearchOutcome,
    astarPath: (City, City, Dimension) -> SearchOutcome,
    dijkstraPath: (City, City, Dimension) -> SearchOutcome)

  /**
   * The answer of a search that checks both endpoints first (`shortest_path`
   * and `astar_path`): "node not found" exactly when an endpoint is missing,
   * "no path" exactly when no walk exists, and otherwise a walk.
   */
  ghost predicate Answers(g: Graph, s: City, t: City, o: SearchOutcome) {
    match o
    case UnknownNode => s !in g.nodes || t !in g.nodes
    case NoPath => s in g.nodes && t in g.nodes && !Reachable(g, s, t)
    case Found(p) => IsWalk(g, p, s, t)
  }

  /**
   * The answer of `dijkstra_path`, which checks only the source: a missing
   * source is "node not found", while a missing target is never reached and so
   * is "no path".
   */
  ghost predicate SourceCheckedAnswers(g: Graph, s: City, t: City, o: SearchOutcome) {
    match o
    case UnknownNode => s !in g.nodes
    case NoPath => s in g.nodes && !Reachable(g, s, t)
    case Found(p) => IsWalk(g, p, s, t)
  }

  ghost predicate BfsAnswers(g: Graph, s: City, t: City, o: SearchOutcome) {
    Answers(g, s, t, o) && (o.Found? ==> HopMinimal(g, o.path, s, t))
  }

  ghost predicate DijkstraAnswers(g: Graph, s: City, t: City, d: Dimension, o: SearchOutcome) {
    SourceCheckedAnswers(g, s, t, o) && (o.Found? ==> Shortest(g, o.path, s, t, d))
  }

  /**
   * A* with the Euclidean heuristic for `time` and the zero heuristic for `cost`:
   * optimality is promised for `cost` only, since whether straight-line distance
   * bounds travel time depends on the data.
   */
  ghost predicate AStarAnswers(g: Graph, s: City, t: City, d: Dimension, o: SearchOutcome) {
    Answers(g, s, t, o) && (o.Found? && d == Cost ==> Shortest(g, o.path, s, t, d))
  }

  /** The library meets its contracts on `g` for every query. */
  ghost predicate Conforms(g: Graph, lib: Library) {
    && (forall s, t :: BfsAnswers(g, s, t, lib.shortestPath(s, t)))
    && (forall s, t, d :: AStarAnswers(g, s, t, d, lib.astarPath(s, t, d)))
    && (forall s, t, d :: DijkstraAnswers(g, s, t, d, lib.dijkstraPath(s, t, d)))
  }

  // ---------------------------------------------------------------------------
  // The search wrappers: `(path, total, error)`

  const NoPathMessage: string := "无路径"

  /** The `(path, total, error)` triple; an infinite total is `None`. */
  datatype SearchResult = SearchResult(path: Option<seq<City>>, total: Option<real>, error: Option<string>)

  /** A wrapper either returns, or lets the library's "node not found" exception escape. */
  datatype Result<T> = Ok(value: T) | NodeNotFound

  /** The shape every wrapper's triple has: a walk with a total and no error, or nothing with the message. */
  ghost predicate Reports(g: Graph, s: City, t: City, r: SearchResult) {
    && (r.path.Some? <==> Reachable(g, s, t))
    && (r.path.Some? ==> IsWalk(g, r.path.value, s, t) && r.total.Some? && r.error.None?)
    && (r.path.None? ==> r.total.None? && r.error == Some(NoPathMessage))
  }

  /** `bfs_shortest_path`: a fewest-edges path, with its hop count as the total. */
  function BfsShortestPath(g: Graph, lib: Library, start: City, end: City): (r: Result<SearchResult>)
    requires Conforms(g, lib)
    ensures r.NodeNotFound? <==> start !in g.nodes || end !in g.nodes
    ensures r.Ok? ==> Reports(g, start, end, r.value)
    ensures r.Ok? && r.value.path.Some? ==>
      HopMinimal(g, r.value.path.value, start, end) && r.value.total == Some((|r.value.path.value| - 1) as real)
  {
    var o := lib.shortestPath(start, end);
    assert BfsAnswers(g, start, end, o);
    match o
    case UnknownNode => NodeNotFound
    case NoPath => Ok(SearchResult(None, None, Some(NoPathMessage)))
    case Found(p) =>
      assert IsWalk(g, p, start, end);
      Ok(SearchResult(Some(p), Some((|p| - 1) as real), None))
  }

  /** `astar_shortest_path`: a path with its weight in `d` as the total; cost-optimal for `cost`. */
  function AStarShortestPath(g: Graph, lib: Library, start: City, end: City, d: Dimension): (r: Result<SearchResult>)
    requires Conforms(g, lib)
    ensures r.NodeNotFound? <==> start !in g.nodes || end !in g.nodes
    ensures r.Ok? ==> Reports(g, start, end, r.value)
    ensures r.Ok? && r.value.path.Some? ==> r.value.total == Some(PathWeight(g, r.value.path.value, d))
    ensures r.Ok? && r.value.path.Some? && d == Cost ==> Shortest(g, r.value.path.value, start, end, d)
  {
    var o := lib.astarPath(start, end, d);
    assert AStarAnswers(g, start, end, d, o);
    match o
    case UnknownNode => NodeNotFound
    case NoPath => Ok(SearchResult(None, None, Some(NoPathMessage)))
    case Found(p) =>
      assert IsWalk(g, p, start, end);
      Ok(SearchResult(Some(p), Some(PathWeight(g, p, d)), None))
  }

  /**
   * `dijkstra_shortest_path`: a lightest path in `d`, with its weight as the
   * total. A missing target is reported as "no path", not as an exception.
   */
  function DijkstraShortestPath(g: Graph, lib: Library, start: City, end: City, d: Dimension): (r: Result<SearchResult>)
    requires Conforms(g, lib)
    ensures r.NodeNotFound? <==> start !in g.nodes
    ensures r.Ok? ==> Reports(g, start, end, r.value)
    ensures r.Ok? && r.value.path.Some? ==>
      Shortest(g, r.value.path.value, start, end, d) && r.value.total == Some(PathWeight(g, r.value.path.value, d))
  {
    var o := lib.dijkstraPath(start, end, d);
    assert DijkstraAnswers(g, start, end, d, o);
    match o
    case UnknownNode => NodeNotFound
    case NoPath => Ok(SearchResult(None, None, Some(NoPathMessage)))
    case Found(p) =>
      assert IsWalk(g, p, start, end);
      Ok(SearchResult(Some(p), Some(PathWeight(g, p, d)), None))
  }

  // ---------------------------------------------------------------------------
  // The dual-objective route record

  /** The record `find_dual_paths` returns; a missing or infinite total is `None`. */
  datatype DualPathResult = DualPathResult(
    start: City,
    end: City,
    algorithm: string,
    timePath: Option<seq<City>>,
    costPath: Option<seq<City>>,
    timeDetails: seq<Segment>,
    costDetails: seq<Segment>,
    totalTime: Option<real>,
    totalCost: Option<real>,
    timePathCost: Option<real>,
    costPathTime: Option<real>)

  /** Python truthiness of an optional path: present and non-empty. */
  predicate Truthy(p: Option<seq<City>>) {
    p.Some? && |p.value| > 0
  }

  /**
   * Each slot of a route record is coherent: a present path is a walk between
   * the record's ends whose totals and details are its own weights and
   * segments; an absent path has no totals and no details.
   */
  ghost predicate Coherent(g: Graph, r: DualPathResult) {
    && (r.timePath.Some? ==>
          var p := r.timePath.value;
          && IsWalk(g, p, r.start, r.end)
          && r.totalTime == Some(PathWeight(g, p, Time))
          && r.timePathCost == Some(PathWeight(g, p, Cost))
          && r.timeDetails == Segments(g, p))
    && (r.timePath.None? ==> r.totalTime.None? && r.timePathCost.None? && r.timeDetails == [])
    && (r.costPath.Some? ==>
          var p := r.costPath.value;
          && IsWalk(g, p, r.start, r.end)
          && r.totalCost == Some(PathWeight(g, p, Cost))
          && r.costPathTime == Some(PathWeight(g, p, Time))
          && r.costDetails == Segments(g, p))
    && (r.costPath.None? ==> r.totalCost.None? && r.costPathTime.None? && r.costDetails == [])
  }

  /** The weighted searches used for tag `algorithm`: A* for "astar", Dijkstra for any other tag. */
  function WeightedSearch(g: Graph, lib: Library, algorithm: string, start: City, end: City, d: Dimension): (r: Result<SearchResult>)
    requires Conforms(g, lib)
    ensures r.NodeNotFound? <==> start !in g.nodes || (algorithm == "astar" && end !in g.nodes)
    ensures r.Ok? ==> Reports(g, start, end, r.value)
    ensures r.Ok? && r.value.path.Some? ==> r.value.total == Some(PathWeight(g, r.value.path.value, d))
    ensures r.Ok? && r.value.path.Some? && (algorithm != "astar" || d == Cost) ==>
      Shortest(g, r.value.path.value, start, end, d)
  {
    if algorithm == "astar" then AStarShortestPath(g, lib, start, end, d)
    else DijkstraShortestPath(g, lib, start, end, d)
  }

  /**
   * `find_dual_paths`: with tag "bfs" one fewest-edges path fills both the time
   * slot and the cost slot; with any other tag a time search and a cost search
   * run independently ("astar" selects A*, anything else Dijkstra), and each
   * path gets its cross-metric only when it exists.
   */
  method FindDualPaths(g: Graph, lib: Library, start: City, end: City, algorithm: string) returns (r: Result<DualPathResult>)
    requires Conforms(g, lib)
    ensures r.NodeNotFound? <==> start !in g.nodes || ((algorithm == "bfs" || algorithm == "astar") && end !in g.nodes)
    ensures r.Ok? ==> r.value.start == start && r.value.end == end && r.value.algorithm == algorithm
    ensures r.Ok? ==> Coherent(g, r.value)
    ensures r.Ok? ==> (r.value.timePath.Some? <==> Reachable(g, start, end))
    ensures r.Ok? ==> (r.value.costPath.Some? <==> Reachable(g, start, end))
    ensures r.Ok? && algorithm == "bfs" ==>
      && r.value.timePath == r.value.costPath
      && r.value.totalCost == r.value.timePathCost
      && r.value.costPathTime == r.value.totalTime
      && (r.value.timePath.Some? ==> HopMinimal(g, r.value.timePath.value, start, end))
    ensures r.Ok? && algorithm != "bfs" && r.value.costPath.Some? ==>
      Shortest(g, r.value.costPath.value, start, end, Cost)
    ensures r.Ok? && algorithm != "bfs" && algorithm != "astar" && r.value.timePath.Some? ==>
      Shortest(g, r.value.timePath.value, start, end, Time)
  {
    var result := DualPathResult(start, end, algorithm, None, None, [], [], None, None, None, None);

    if algorithm == "bfs" {
      var found := BfsShortestPath(g, lib, start, end);
      if found.NodeNotFound? {
        return NodeNotFound;
      }
      var path := found.value.path;
      if Truthy(path) {
        var p := path.value;
        result := result.(timePath := Some(p));
        result := result.(totalTime := Some(PathWeight(g, p, Time)));
        result := result.(timePathCost := Some(PathWeight(g, p, Cost)));
        result := result.(costPath := Some(p));
        result := result.(totalCost := result.timePathCost);
        result := result.(costPathTime := result.totalTime);
      }
    } else {
      var t := WeightedSearch(g, lib, algorithm, start, end, Time);
      if t.NodeNotFound? {
        return NodeNotFound;
      }
      var c := WeightedSearch(g, lib, algorithm, start, end, Cost);
      result := result.(timePath := t.value.path);
      result := result.(totalTime := t.value.total);
      result := result.(costPath := c.value.path);
      result := result.(totalCost := c.value.total);
      if Truthy(t.value.path) {
        result := result.(timePathCost := Some(PathWeight(g, t.value.path.value, Cost)));
      }
      if Truthy(c.value.path) {
        result := result.(costPathTime := Some(PathWeight(g, c.value.path.value, Time)));
      }
    }

    if Truthy(result.timePath) {
      var details := GetPathDetails(g, result.timePath.value);
      result := result.(timeDetails := details);
    }
    if Truthy(result.costPath) {
      var details := GetPathDetails(g, result.costPath.value);
      result := result.(costDetails := details);
    }
    return Ok(result);
  }

  /** In a coherent record, the detail lists add up to the reported totals. */
  lemma DetailsAgreeWithTotals(g: Graph, r: DualPathResult)
    requires Coherent(g, r)
    ensures r.timePath.Some? ==> r.totalTime == Some(SumField(r.timeDetails, Time))
    ensures r.timePath.Some? ==> r.timePathCost == Some(SumField(r.timeDetails, Cost))
    ensures r.costPath.Some? ==> r.totalCost == Some(SumField(r.costDetails, Cost))
    ensures r.costPath.Some? ==> r.costPathTime == Some(SumField(r.costDetails, Time))
  {
    if r.timePath.Some? {
      DetailsSumIsPathWeight(g, r.timePath.value, Time);
      DetailsSumIsPathWeight(g, r.timePath.value, Cost);
    }
    if r.costPath.Some? {
      DetailsSumIsPathWeight(g, r.costPath.value, Time);
      DetailsSumIsPathWeight(g, r.costPath.value, Cost);
    }
  }

  // ---------------------------------------------------------------------------
  // Ranking betweenness scores

  type Score = (City, real)

  predicate NonIncreasing(s: seq<Score>) {
    forall i, j :: 0 <= i < j < |s| ==> s[i].1 >= s[j].1
  }

  /** The entries of `s` whose score is `v`, in their order in `s`. */
  function WithScore(s: seq<Score>, v: real): seq<Score> {
    if |s| == 0 then [] else (if s[0].1 == v then [s[0]] else []) + WithScore(s[1..], v)
  }

  /** Puts `x` before the first entry of `s` whose score is not greater than its own. */
  function InsertByScore(x: Score, s: seq<Score>): seq<Score> {
    if |s| == 0 then [x]
    else if s[0].1 > x.1 then [s[0]] + InsertByScore(x, s[1..])
    else [x] + s
  }

  /** `WithScore` of a list with `x` in front: `x` when it has score `v`, then the rest. */
  lemma WithScoreCons(x: Score, s: seq<Score>, v: real)
    ensures WithScore([x] + s, v) == (if x.1 == v then [x] else []) + WithScore(s, v)
  {
  }

  /** Inserting adds `x` and keeps every other entry. */
  lemma {:induction false} InsertByScorePermutes(x: Score, s: seq<Score>)
    ensures multiset(InsertByScore(x, s)) == multiset(s) + multiset{x}
  {
    if |s| > 0 && s[0].1 > x.1 {
      InsertByScorePermutes(x, s[1..]);
      assert s == [s[0]] + s[1..];
    }
  }

  /** Inserting into a non-increasing list keeps it non-increasing. */
  lemma {:induction false} InsertByScoreSorted(x: Score, s: seq<Score>)
    requires NonIncreasing(s)
    ensures NonIncreasing(InsertByScore(x, s))
  {
    if |s| > 0 && s[0].1 > x.1 {
      InsertByScoreSorted(x, s[1..]);
      InsertByScorePermutes(x, s[1..]);
      var rest := InsertByScore(x, s[1..]);
      forall y | y in rest ensures s[0].1 >= y.1 {
        assert y in multiset(rest);
        if y != x {
          assert y in multiset(s[1..]);
        }
      }
    }
  }

  /** Inserting `x` puts it ahead of every entry with the same score, which keep their order. */
  lemma {:induction false} InsertByScoreStable(x: Score, s: seq<Score>, v: real)
    ensures WithScore(InsertByScore(x, s), v) == (if x.1 == v then [x] else []) + WithScore(s, v)
  {
    if |s| == 0 {
      WithScoreCons(x, [], v);
    } else if s[0].1 > x.1 {
      InsertByScoreStable(x, s[1..], v);
      WithScoreCons(s[0], InsertByScore(x, s[1..]), v);
      WithScoreCons(s[0], s[1..], v);
      assert s == [s[0]] + s[1..];
    } else {
      WithScoreCons(x, s, v);
    }
  }

  /**
   * `sorted(scores, key=score, reverse=True)`: scores non-increasing, a
   * permutation of the input, and entries with equal scores in their input
   * order (the sort is stable).
   */
  function SortByScoreDescending(s: seq<Score>): (r: seq<Score>)
    ensures |r| == |s|
    ensures NonIncreasing(r)
    ensures multiset(r) == multiset(s)
    ensures forall v :: WithScore(r, v) == WithScore(s, v)
  {
    if |s| == 0 then []
    else
      var rest := SortByScoreDescending(s[1..]);
      InsertByScoreSorted(s[0], rest);
      InsertByScorePermutes(s[0], rest);
      assert |multiset(InsertByScore(s[0], rest))| == |multiset(rest)| + 1;
      assert s == [s[0]] + s[1..];
      assert forall v :: WithScore(InsertByScore(s[0], rest), v) == WithScore(s, v) by {
        forall v ensures WithScore(InsertByScore(s[0], rest), v) == WithScore(s, v) {
          InsertByScoreStable(s[0], rest, v);
          WithScoreCons(s[0], s[1..], v);
        }
      }
      InsertByScore(s[0], rest)
  }

  /** Python's `s[:n]`: a negative `n` counts from the end. */
  function SliceTo(s: seq<Score>, n: int): (r: seq<Score>)
    ensures |r| == if n >= 0 then (if n < |s| then n else |s|) else (if |s| + n > 0 then |s| + n else 0)
    ensures r == s[..|r|]
  {
    if n >= 0 then (if n < |s| then s[..n] else s)
    else (if |s| + n > 0 then s[..|s| + n] else [])
  }

  /** The library's betweenness scores come with one entry per node, in node order. */
  predicate ScoresFollowNodes(g: Graph, scores: seq<Score>) {
    |scores| == |g.nodes| && forall i :: 0 <= i < |scores| ==> scores[i].0 == g.nodes[i]
  }

  /**
   * `calculate_betweenness_centrality`: the scores sorted descending (stably)
   * and cut to the first `topN` entries.
   */
  function CalculateBetweennessCentrality(g: Graph, scores: seq<Score>, topN: int): (r: seq<Score>)
    requires ScoresFollowNodes(g, scores)
    ensures |r| <= |scores|
    ensures topN >= 0 ==> |r| == if topN < |g.nodes| then topN else |g.nodes|
    ensures NonIncreasing(r)
    ensures forall i :: 0 <= i < |r| ==> r[i].0 in g.nodes
    ensures multiset(r) <= multiset(scores)
    ensures r == SortByScoreDescending(scores)[..|r|]
    ensures forall i, j :: 0 <= i < |r| <= j < |scores| ==> r[i].1 >= SortByScoreDescending(scores)[j].1
  {
    var sorted := SortByScoreDescending(scores);
    var r := SliceTo(sorted, topN);
    PrefixInNodes(g, scores, sorted, |r|);
    r
  }

  /** A prefix of a rearrangement of the scores holds only node names, each at most as often as in the scores. */
  lemma PrefixInNodes(g: Graph, scores: seq<Score>, sorted: seq<Score>, n: nat)
    requires ScoresFollowNodes(g, scores) && multiset(sorted) == multiset(scores) && n <= |sorted|
    ensures multiset(sorted[..n]) <= multiset(scores)
    ensures forall i :: 0 <= i < n ==> sorted[i].0 in g.nodes
  {
    assert sorted == sorted[..n] + sorted[n..];
    assert multiset(sorted) == multiset(sorted[..n]) + multiset(sorted[n..]);
    forall i | 0 <= i < n ensures sorted[i].0 in g.nodes {
      assert sorted[i] in multiset(scores);
      var j :| 0 <= j < |scores| && scores[j] == sorted[i];
    }
  }
}
