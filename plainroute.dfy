/**
 * `PlainRoute`: the route type that keeps every segment and every query pair
 * as text. Parsing is the normaliser alone; rendering is the normaliser's
 * render rule followed by the wire renderer.
 */
module PlainRoutes {
  import opened Wrappers
  import opened Text
  import Raw
  import Normalize
  import opened Routes

  datatype PlainRoute = PlainRoute(path: seq<Bytes>, query: Option<seq<Raw.QueryPair>>)

  /** `PlainRoute::parse`: normalise, and report a non-canonical input with its redirect target. */
  function Parse(path: seq<Bytes>, query: Option<seq<Raw.QueryPair>>): (r: Result<PlainRoute, RouteError>)
    ensures r.Failure? <==> [] in path
    ensures r.Failure? ==> r.error == NormalizationFailed(Raw.Render(Normalize.NonEmpty(path), query))
    ensures r.Success? ==> r.value.query == query && Normalize.EscapePath(r.value.path) == path
  {
    match Normalize.NormalizedParse(path, query)
    case Failure(target) => Failure(NormalizationFailed(target))
    case Success((p, q)) =>
      Normalize.RenderParsePath(path, query);
      Success(PlainRoute(p, q))
  }

  /** `PlainRoute::path`: the segments with the dash escape applied. */
  function PathOf(route: PlainRoute): (r: seq<Bytes>)
    ensures |r| == |route.path| && [] !in r
  {
    Normalize.RenderPathShape(route.path);
    Normalize.EscapePath(route.path)
  }

  /** `Route::render` for a `PlainRoute`: `render_path_and_query` of `path()` and `query()`. */
  function Render(route: PlainRoute): Bytes
  {
    Raw.Render(PathOf(route), route.query)
  }

  /** `Route::parse_str` for a `PlainRoute`. */
  function ParseStr(s: Bytes): Result<PlainRoute, RouteError>
  {
    var (path, query) := Raw.ParsePathAndQuery(s);
    Parse(path, query)
  }

  /** `Route::parse_strs` for a `PlainRoute`, with the query test the right way round. */
  function ParseStrs(path: Bytes, query: Bytes): Result<PlainRoute, RouteError>
  {
    var (p, q) := ParseStrsInput(path, query);
    Parse(p, q)
  }

  // ---------------------------------------------------------------------------
  // Properties
  // ---------------------------------------------------------------------------

  /** Handing `path()` and `query()` straight back to `parse` gives the same route, for every route. */
  lemma ParsePathOf(route: PlainRoute)
    ensures Parse(PathOf(route), route.query) == Success(route)
  {
    Normalize.ParseRenderPath(route.path, route.query);
  }

  /**
   * Rendering then `parse_str` gives the same route, when no segment holds
   * `%` and the query is safe for the wire codec (keys without `%`, `&`, `=`,
   * values without `%`, `&`, and not the lone bare empty key).
   */
  lemma RoundTrip(route: PlainRoute)
    requires forall i | 0 <= i < |route.path| :: '%' !in route.path[i]
    requires route.query.Some? ==> Raw.SafeQuery(route.query.value)
    ensures ParseStr(Render(route)) == Success(route)
  {
    var p := PathOf(route);
    forall i | 0 <= i < |p| ensures '%' !in p[i] {
      assert p[i] == Normalize.Escape(route.path[i]);
    }
    assert p != [[]];
    Raw.ParseRender(p, route.query);
    ParsePathOf(route);
  }

  /** The round trip of the path alone needs no condition on dashes or empty segments. */
  lemma PathRoundTrip(path: seq<Bytes>)
    requires forall i | 0 <= i < |path| :: '%' !in path[i]
    ensures ParseStr(Render(PlainRoute(path, None))) == Success(PlainRoute(path, None))
  {
    RoundTrip(PlainRoute(path, None));
  }

  /** `parse_strs` with the path and the query apart agrees with `parse_str` on the joined target. */
  lemma ParseStrsAgrees(path: Bytes, query: Bytes)
    requires '?' !in path
    ensures ParseStrs(path, query) == ParseStr(Target(path, query))
  {
    ParseStrsAgreesWithParseStr(path, query);
  }
}
