/**
 * The two pieces of the web front end that carry logic of their own: the
 * category lookup for a city, and the checks and routing choice a path request
 * goes through before any route is computed.
 */
module App {
  import opened Wrappers
  import opened Graphs

  /** The category reported for a city that no category lists. */
  const OtherCategory: string := "其他"

  /** The category table: category names in table order, each with its cities. */
  type CategoryTable = seq<(string, seq<City>)>

  /** Category `i` lists `city` and no earlier category does. */
  predicate FirstListing(categories: CategoryTable, city: City, i: nat) {
    && i < |categories|
    && city in categories[i].1
    && forall j :: 0 <= j < i ==> city !in categories[j].1
  }

  /**
   * `get_city_category`: the name of the first category, in table order, whose
   * list contains `city`; `OtherCategory` when none does.
   */
  function GetCityCategory(categories: CategoryTable, city: City): (r: string)
    ensures forall i :: 0 <= i < |categories| && FirstListing(categories, city, i) ==> r == categories[i].0
    ensures (forall i :: 0 <= i < |categories| ==> city !in categories[i].1) ==> r == OtherCategory
  {
    if |categories| == 0 then OtherCategory
    else if city in categories[0].1 then categories[0].0
    else
      var r := GetCityCategory(categories[1..], city);
      assert forall i :: 1 <= i < |categories| && FirstListing(categories, city, i) ==>
        FirstListing(categories[1..], city, i - 1);
      r
  }

  /** The fields of a path request; `None` is a field that is missing (or null). */
  datatype PathRequest = PathRequest(
    start: Option<string>,
    end: Option<string>,
    waypoints: Option<seq<City>>,
    algorithm: Option<string>)

  /** What `calculate_path` does with a request, before any route is computed. */
  datatype Dispatch =
    | Rejected(status: nat, message: string)
    | MultiStop(start: City, end: City, waypoints: seq<City>)
    | DualPath(start: City, end: City, algorithm: string)

  const MissingEndpointMessage: string := "请选择起点和终点"
  const DefaultAlgorithm: string := "dijkstra"

  /** Python truthiness of an optional string. */
  predicate Given(s: Option<string>) {
    s.Some? && s.value != ""
  }

  /**
   * The checks of `calculate_path`: a missing or empty start or end is rejected
   * with status 400; a non-empty waypoint list selects multi-stop routing;
   * otherwise dual-path routing runs with the requested algorithm, "dijkstra"
   * when none is given.
   */
  function DispatchPathRequest(req: PathRequest): (r: Dispatch)
    ensures r.Rejected? <==> !Given(req.start) || !Given(req.end)
    ensures r.Rejected? ==> r.status == 400 && r.message == MissingEndpointMessage
    ensures !r.Rejected? ==> Some(r.start) == req.start && Some(r.end) == req.end
    ensures r.MultiStop? <==> !r.Rejected? && req.waypoints.Some? && |req.waypoints.value| > 0
    ensures r.MultiStop? ==> Some(r.waypoints) == req.waypoints
    ensures r.DualPath? ==> r.algorithm == req.algorithm.GetOr(DefaultAlgorithm)
    ensures r.DualPath? && req.algorithm.None? ==> r.algorithm == DefaultAlgorithm
  {
    var waypoints := req.waypoints.GetOr([]);
    var algorithm := req.algorithm.GetOr(DefaultAlgorithm);
    if !Given(req.start) || !Given(req.end) then
      Rejected(400, MissingEndpointMessage)
    else if |waypoints| > 0 then
      MultiStop(req.start.value, req.end.value, waypoints)
    else
      DualPath(req.start.value, req.end.value, algorithm)
  }
}
