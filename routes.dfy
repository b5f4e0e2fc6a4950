/**
 * The string front ends every route type shares (`Route::parse_str`,
 * `Route::parse_strs`) and the error type of `Route::parse`.
 *
 * `parse_str` hands `parse_path_and_query` of its one string to `parse`;
 * `parse_strs` takes the path and the query as two strings. As written,
 * `parse_strs` tests the query the wrong way round; `ParseStrsAsWritten`
 * models that code and `ParseStrsInput` the corrected one, which the route
 * types use.
 */
module Routes {
  import opened Wrappers
  import opened Text
  import Raw

  /** Why parsing a route failed. */
  datatype RouteError =
    | NormalizationFailed(target: Bytes)  // not canonical; the target to redirect to
    | NoMatch                             // canonical, but no route matched

  /** What `Route::parse` receives: the decoded segments and, if present, the query pairs. */
  type Input = (seq<Bytes>, Option<seq<Raw.QueryPair>>)

  /**
   * `parse_strs` as written: the query is parsed only when it is empty, so an
   * empty query string gives `Some` of no pairs and any other gives `None`.
   */
  function ParseStrsAsWritten(path: Bytes, query: Bytes): (r: Input)
    ensures r.0 == Raw.ParsePath(path)
    ensures r.1.Some? <==> query == []
    ensures r.1.Some? ==> r.1.value == []
  {
    var q := if query == [] then Some(Raw.ParseQuery(StripPrefix(query, '?'))) else None;
    (Raw.ParsePath(path), q)
  }

  /**
   * `parse_strs` as its documentation describes it: an empty query string is
   * no query; otherwise one leading `?` is dropped and the rest parsed.
   */
  function ParseStrsInput(path: Bytes, query: Bytes): (r: Input)
    ensures r.0 == Raw.ParsePath(path)
    ensures r.1.None? <==> query == []
    ensures r.1.Some? ==> r.1.value == Raw.ParseQuery(StripPrefix(query, '?'))
  {
    var q := if query == [] then None else Some(Raw.ParseQuery(StripPrefix(query, '?')));
    (Raw.ParsePath(path), q)
  }

  /** The single request target that `parse_strs(path, query)` stands for. */
  function Target(path: Bytes, query: Bytes): Bytes
  {
    path + if query == [] then [] else ['?'] + StripPrefix(query, '?')
  }

  /**
   * The corrected `parse_strs` agrees with `parse_str` on the target the two
   * strings stand for, whenever the path holds no `?`.
   */
  lemma ParseStrsAgreesWithParseStr(path: Bytes, query: Bytes)
    requires '?' !in path
    ensures ParseStrsInput(path, query) == Raw.ParsePathAndQuery(Target(path, query))
  {
    if query != [] {
      var rest := StripPrefix(query, '?');
      var t := path + ['?'] + rest;
      assert Target(path, query) == t;
      SplitFirstAt(path, '?', rest);
      assert Raw.ParsePathAndQuery(t) == (Raw.ParsePath(path), Some(Raw.ParseQuery(rest)));
    } else {
      assert Target(path, query) == path;
    }
  }

  /**
   * As written, `parse_strs` disagrees with `parse_str` about the query on
   * every input: it invents an empty query and drops a given one.
   */
  lemma ParseStrsAsWrittenDisagrees(path: Bytes, query: Bytes)
    requires '?' !in path
    ensures ParseStrsAsWritten(path, query).1 != Raw.ParsePathAndQuery(Target(path, query)).1
  {
    ParseStrsAgreesWithParseStr(path, query);
  }

  /** The concrete case: the query `a` is lost as written and kept as `[("a", None)]` when corrected. */
  lemma ParseStrsDropsQueryExample()
    ensures ParseStrsAsWritten("/", "a").1 == None
    ensures ParseStrsInput("/", "a").1 == Some([("a", None)])
  {
    assert StripPrefix("a", '?') == "a";
    assert Raw.ParseQuery("a") == [("a", None)] by {
      Raw.ParseQueryOfPieces("a", ["a"]);
      Raw.ParseQueryPairBare("a");
    }
  }
}
