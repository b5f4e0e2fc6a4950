/**
 * What the derived `Route` impl does with a table of compiled templates, one
 * per enum variant in declaration order. Each placeholder carries the piece
 * type of the field it binds.
 *
 * `parse` normalises the segments, groups the query into a `QueryMap`, then
 * tries the templates in order; the first that matches wins. A template
 * matches when its path specs consume the segments exactly (a literal must
 * equal its segment, a placeholder must parse as its piece type) and each
 * query spec finds what it needs in the map. `path` and `query` render a
 * variant's pieces back through its template.
 */
module Matcher {
  import opened Wrappers
  import opened Text
  import Raw
  import Normalize
  import opened QueryMaps
  import opened Pieces
  import opened Routes
  import opened Templates

  /** A template whose placeholders carry the piece type of their field. */
  type Route = Template<PieceKind>

  /** A parsed route: which variant, and the pieces of its fields in placeholder order. */
  datatype Matched = Matched(variant: nat, pieces: seq<Piece>)

  /**
   * The typed template the Rust compiler's field binding gives: the
   * placeholders in order get the piece types `kinds`; literals and keys stay.
   */
  function TypedSegs(vs: seq<RouteValue<FieldRef>>, kinds: seq<PieceKind>): (r: seq<RouteValue<PieceKind>>)
    requires |kinds| == |Fields(vs)|
    ensures |r| == |vs| && Fields(r) == kinds
    ensures forall i | 0 <= i < |vs| ::
      (vs[i].Literal? ==> r[i] == Literal(vs[i].text)) && (vs[i].Field? ==> r[i].Field? && r[i].local == vs[i].local)
    decreases |vs|
  {
    if vs == [] then []
    else
      match vs[0]
      case Literal(s) => [Literal(s)] + TypedSegs(vs[1..], kinds)
      case Field(_, local) => [Field(kinds[0], local)] + TypedSegs(vs[1..], kinds[1..])
  }

  function TypedPairs(qs: seq<QuerySpec<FieldRef>>, kinds: seq<PieceKind>): (r: seq<QuerySpec<PieceKind>>)
    requires |kinds| == |QueryFields(qs)|
    ensures |r| == |qs| && QueryFields(r) == kinds
    ensures forall i | 0 <= i < |qs| ::
      r[i].key == qs[i].key && (r[i].value.None? <==> qs[i].value.None?) && (Takes(r[i]) <==> Takes(qs[i]))
    ensures forall i | 0 <= i < |qs| ::
      (qs[i].value.Some? && qs[i].value.value.Literal? ==> r[i].value == Some(Literal(qs[i].value.value.text))) &&
      (Takes(qs[i]) ==> Takes(r[i]) && r[i].value.value.local == qs[i].value.value.local)
    decreases |qs|
  {
    if qs == [] then []
    else
      var key := qs[0].key;
      match qs[0].value
      case None => [QuerySpec(key, None)] + TypedPairs(qs[1..], kinds)
      case Some(Literal(s)) => [QuerySpec(key, Some(Literal(s)))] + TypedPairs(qs[1..], kinds)
      case Some(Field(_, local)) => [QuerySpec(key, Some(Field(kinds[0], local)))] + TypedPairs(qs[1..], kinds[1..])
  }

  function Typed(t: Template<FieldRef>, kinds: seq<PieceKind>): (r: Route)
    requires |kinds| == |TemplateFields(t)|
    ensures TemplateFields(r) == kinds
    ensures |r.path| == |t.path| && |r.query| == |t.query|
    ensures forall i | 0 <= i < |t.path| ::
      (t.path[i].Literal? ==> r.path[i] == Literal(t.path[i].text)) &&
      (t.path[i].Field? ==> r.path[i].Field? && r.path[i].local == t.path[i].local)
    ensures forall i | 0 <= i < |t.query| ::
      r.query[i].key == t.query[i].key && (r.query[i].value.None? <==> t.query[i].value.None?) &&
      (t.query[i].value.Some? && t.query[i].value.value.Literal? ==> r.query[i].value == Some(Literal(t.query[i].value.value.text))) &&
      (Takes(t.query[i]) ==> Takes(r.query[i]) && r.query[i].value.value.local == t.query[i].value.value.local)
  {
    var n := |Fields(t.path)|;
    assert |TemplateFields(t)| == n + |QueryFields(t.query)|;
    var path := TypedSegs(t.path, kinds[..n]);
    var query := TypedPairs(t.query, kinds[n..]);
    TakeDrop(kinds, n);
    Template(path, query)
  }

  /** The pieces a template's placeholders would bind, with the right number and types. */
  predicate Fits(kinds: seq<PieceKind>, pieces: seq<Piece>)
  {
    |pieces| == |kinds| && forall i | 0 <= i < |pieces| :: pieces[i].Kind() == kinds[i]
  }

  /** `None` stays `None`; `Some(ps)` gets `acc` in front. */
  function Prepend(acc: seq<Piece>, r: Option<seq<Piece>>): Option<seq<Piece>>
  {
    match r
    case None => None
    case Some(ps) => Some(acc + ps)
  }

  /** Pieces that fit two kind lists, put one after the other, fit the joined list. */
  lemma PrependFits(k1: seq<PieceKind>, acc: seq<Piece>, k2: seq<PieceKind>, r: Option<seq<Piece>>)
    requires Fits(k1, acc) && (r.Some? ==> Fits(k2, r.value))
    ensures Prepend(acc, r).Some? ==> Fits(k1 + k2, Prepend(acc, r).value)
  {
    if r.Some? {
      var ps := acc + r.value;
      forall i | 0 <= i < |ps| ensures ps[i].Kind() == (k1 + k2)[i] {
        if i >= |acc| {
          assert ps[i] == r.value[i - |acc|];
        }
      }
    }
  }

  // ---------------------------------------------------------------------------
  // Matching the path: `Seg::gen_parse` and the leftover check of `gen_parse_block`
  // ---------------------------------------------------------------------------

  /** Whether one segment satisfies one path spec. */
  predicate SegAccepts(spec: RouteValue<PieceKind>, seg: Bytes)
  {
    match spec
    case Literal(s) => seg == s
    case Field(k, _) => ParsePiece(k, seg).Some?
  }

  /**
   * The path specs walked against the segments: a literal needs the next
   * segment to equal it, a placeholder needs a next segment that parses; a
   * missing segment or a segment left over fails the template.
   */
  function MatchPath(specs: seq<RouteValue<PieceKind>>, segs: seq<Bytes>): (r: Option<seq<Piece>>)
    ensures r.Some? ==> |segs| == |specs| && Fits(Fields(specs), r.value)
    decreases |specs|
  {
    if specs == [] then (if segs == [] then Some([]) else None)
    else if segs == [] then None
    else
      match specs[0]
      case Literal(s) => if segs[0] != s then None else MatchPath(specs[1..], segs[1..])
      case Field(k, _) =>
        match ParsePiece(k, segs[0])
        case None => None
        case Some(p) =>
          var tail := MatchPath(specs[1..], segs[1..]);
          PrependFits([k], [p], Fields(specs[1..]), tail);
          Prepend([p], tail)
  }

  // ---------------------------------------------------------------------------
  // Matching the query: `Query::gen_parse`
  // ---------------------------------------------------------------------------

  /** Whether the map satisfies one query spec. */
  predicate PairAccepts(spec: QuerySpec<PieceKind>, m: QueryMap)
  {
    match spec.value
    case None => Contains(m, spec.key)
    case Some(Literal(s)) => GetSingle(m, spec.key) == Some(s)
    case Some(Field(k, _)) => GetSingle(m, spec.key).Some? && ParsePiece(k, GetSingle(m, spec.key).value).Some?
  }

  /**
   * One query spec against the map: a bare key must occur, a literal value
   * must be the key's single value, and a placeholder needs a single value
   * that parses; only a placeholder binds a piece.
   */
  function MatchPair(spec: QuerySpec<PieceKind>, m: QueryMap): (r: Option<seq<Piece>>)
    ensures r.Some? ==> Fits(if Takes(spec) then [spec.value.value.field] else [], r.value)
    ensures r.Some? && Takes(spec) ==>
      GetSingle(m, spec.key).Some? && ParsePiece(spec.value.value.field, GetSingle(m, spec.key).value) == Some(r.value[0])
  {
    match spec.value
    case None => if !Contains(m, spec.key) then None else Some([])
    case Some(Literal(s)) => if GetSingle(m, spec.key) != Some(s) then None else Some([])
    case Some(Field(k, _)) =>
      match GetSingle(m, spec.key)
      case None => None
      case Some(v) =>
        match ParsePiece(k, v)
        case None => None
        case Some(p) => Some([p])
  }

  /** Each query spec in turn, the pieces of the placeholders in order. */
  function MatchQuery(specs: seq<QuerySpec<PieceKind>>, m: QueryMap): (r: Option<seq<Piece>>)
    ensures r.Some? ==> Fits(QueryFields(specs), r.value)
    decreases |specs|
  {
    if specs == [] then Some([])
    else
      match MatchPair(specs[0], m)
      case None => None
      case Some(h) =>
        var tail := MatchQuery(specs[1..], m);
        PrependFits(if Takes(specs[0]) then [specs[0].value.value.field] else [], h, QueryFields(specs[1..]), tail);
        Prepend(h, tail)
  }

  /** One parse block: the path, then the query; the pieces are the path's then the query's. */
  function MatchTemplate(t: Route, segs: seq<Bytes>, m: QueryMap): (r: Option<seq<Piece>>)
    ensures r.Some? ==> Fits(TemplateFields(t), r.value)
  {
    match MatchPath(t.path, segs)
    case None => None
    case Some(a) =>
      match MatchQuery(t.query, m)
      case None => None
      case Some(b) => Some(a + b)
  }

  /** The first template from `i` on that matches. */
  function FirstMatch(table: seq<Route>, segs: seq<Bytes>, m: QueryMap, i: nat): (r: Option<Matched>)
    ensures r.Some? ==> i <= r.value.variant < |table| && MatchTemplate(table[r.value.variant], segs, m) == Some(r.value.pieces)
    decreases |table| - i
  {
    if i >= |table| then None
    else
      match MatchTemplate(table[i], segs, m)
      case Some(ps) => Some(Matched(i, ps))
      case None => FirstMatch(table, segs, m, i + 1)
  }

  /**
   * The generated `parse`: a normalisation failure is reported with its
   * redirect target whatever the templates; otherwise the first matching
   * template wins, and none matching is `NoMatch`.
   */
  function ParseRoute(table: seq<Route>, path: seq<Bytes>, query: Option<seq<Raw.QueryPair>>): (r: Result<Matched, RouteError>)
    ensures r.Failure? && r.error.NormalizationFailed? <==> Normalize.NormalizedParse(path, query).Failure?
    ensures Normalize.NormalizedParse(path, query).Failure? ==>
      r == Failure(NormalizationFailed(Raw.Render(Normalize.NonEmpty(path), query)))
    ensures r.Success? ==> r.value.variant < |table| && Fits(TemplateFields(table[r.value.variant]), r.value.pieces)
  {
    Normalize.ParseFailsIffEmptySegment(path, query);
    match Normalize.NormalizedParse(path, query)
    case Failure(target) => Failure(NormalizationFailed(target))
    case Success((segs, q)) =>
      match FirstMatch(table, segs, Build(q), 0)
      case None => Failure(NoMatch)
      case Some(v) => Success(v)
  }

  /** `Route::parse_str` for a derived route type. */
  function ParseStr(table: seq<Route>, s: Bytes): Result<Matched, RouteError>
  {
    var (path, query) := Raw.ParsePathAndQuery(s);
    ParseRoute(table, path, query)
  }

  // ---------------------------------------------------------------------------
  // The generated code, step by step
  // ---------------------------------------------------------------------------

  /** One path step, as the walk below takes it. */
  lemma PathStep(specs: seq<RouteValue<PieceKind>>, segs: seq<Bytes>, i: nat)
    requires i < |specs| && i < |segs|
    ensures MatchPath(specs[i..], segs[i..]) ==
      match specs[i]
      case Literal(s) => if segs[i] != s then None else MatchPath(specs[i + 1..], segs[i + 1..])
      case Field(k, _) =>
        match ParsePiece(k, segs[i])
        case None => None
        case Some(p) => Prepend([p], MatchPath(specs[i + 1..], segs[i + 1..]))
  {
    assert specs[i..][0] == specs[i] && specs[i..][1..] == specs[i + 1..];
    assert segs[i..][0] == segs[i] && segs[i..][1..] == segs[i + 1..];
  }

  lemma PrependNil(r: Option<seq<Piece>>)
    ensures Prepend([], r) == r
  {
    if r.Some? {
      assert [] + r.value == r.value;
    }
  }

  lemma PrependAppend(acc: seq<Piece>, b: seq<Piece>, r: Option<seq<Piece>>)
    ensures Prepend(acc, Prepend(b, r)) == Prepend(acc + b, r)
  {
    if r.Some? {
      assert acc + (b + r.value) == acc + b + r.value;
    }
  }

  /**
   * The path part of a parse block: take the next segment for each spec,
   * returning `None` at the first one missing or refused, then refuse a
   * segment left over.
   */
  method WalkPath(specs: seq<RouteValue<PieceKind>>, segs: seq<Bytes>) returns (r: Option<seq<Piece>>)
    ensures r == MatchPath(specs, segs)
  {
    var acc: seq<Piece> := [];
    var i := 0;
    assert specs[0..] == specs && segs[0..] == segs;
    PrependNil(MatchPath(specs, segs));
    while i < |specs|
      invariant i <= |specs| && i <= |segs|
      invariant MatchPath(specs, segs) == Prepend(acc, MatchPath(specs[i..], segs[i..]))
      decreases |specs| - i
    {
      if i >= |segs| {
        return None;
      }
      PathStep(specs, segs, i);
      match specs[i] {
        case Literal(s) =>
          if segs[i] != s {
            return None;
          }
        case Field(k, _) =>
          var p := ParsePiece(k, segs[i]);
          if p.None? {
            return None;
          }
          PrependAppend(acc, [p.value], MatchPath(specs[i + 1..], segs[i + 1..]));
          acc := acc + [p.value];
      }
      i := i + 1;
    }
    if i < |segs| {
      return None;
    }
    assert specs[i..] == [] && segs[i..] == [];
    assert acc + [] == acc;
    r := Some(acc);
  }

  /** One query step. */
  lemma QueryStep(specs: seq<QuerySpec<PieceKind>>, m: QueryMap, i: nat)
    requires i < |specs|
    ensures MatchQuery(specs[i..], m) ==
      match MatchPair(specs[i], m)
      case None => None
      case Some(h) => Prepend(h, MatchQuery(specs[i + 1..], m))
  {
    assert specs[i..][0] == specs[i] && specs[i..][1..] == specs[i + 1..];
  }

  /** The query part of a parse block: each spec checked in turn against the map. */
  method CheckQuery(specs: seq<QuerySpec<PieceKind>>, m: QueryMap) returns (r: Option<seq<Piece>>)
    ensures r == MatchQuery(specs, m)
  {
    var acc: seq<Piece> := [];
    assert specs[0..] == specs;
    PrependNil(MatchQuery(specs, m));
    for i := 0 to |specs|
      invariant MatchQuery(specs, m) == Prepend(acc, MatchQuery(specs[i..], m))
    {
      QueryStep(specs, m, i);
      var key := specs[i].key;
      match specs[i].value {
        case None =>
          if !Contains(m, key) {
            return None;
          }
          PrependNil(MatchQuery(specs[i + 1..], m));
        case Some(Literal(s)) =>
          if GetSingle(m, key) != Some(s) {
            return None;
          }
          PrependNil(MatchQuery(specs[i + 1..], m));
        case Some(Field(k, _)) =>
          var v := GetSingle(m, key);
          if v.None? {
            return None;
          }
          var p := ParsePiece(k, v.value);
          if p.None? {
            return None;
          }
          PrependAppend(acc, [p.value], MatchQuery(specs[i + 1..], m));
          acc := acc + [p.value];
      }
    }
    assert specs[|specs|..] == [];
    assert acc + [] == acc;
    r := Some(acc);
  }

  /** `Route::parse` as generated: normalise, build the map, then one parse block per variant in order. */
  method Parse(table: seq<Route>, path: seq<Bytes>, query: Option<seq<Raw.QueryPair>>) returns (r: Result<Matched, RouteError>)
    ensures r == ParseRoute(table, path, query)
  {
    var n := Normalize.NormalizeParse(path, query);
    if n.Failure? {
      return Failure(NormalizationFailed(n.error));
    }
    var (segs, q) := n.value;
    var m := FromQueryIter(q);
    for i := 0 to |table|
      invariant FirstMatch(table, segs, m, 0) == FirstMatch(table, segs, m, i)
    {
      var a := WalkPath(table[i].path, segs);
      if a.Some? {
        var b := CheckQuery(table[i].query, m);
        if b.Some? {
          return Success(Matched(i, a.value + b.value));
        }
      }
    }
    r := Failure(NoMatch);
  }

  // ---------------------------------------------------------------------------
  // Rendering: `path_arm_stmts`, `Query::stmts` and the `path`/`query` methods
  // ---------------------------------------------------------------------------

  /** The segments before the render rule: each literal as written, each placeholder's piece rendered. */
  function RenderSegs(specs: seq<RouteValue<PieceKind>>, pieces: seq<Piece>): (r: seq<Bytes>)
    requires |pieces| == |Fields(specs)|
    ensures |r| == |specs|
    decreases |specs|
  {
    if specs == [] then []
    else
      match specs[0]
      case Literal(s) => [s] + RenderSegs(specs[1..], pieces)
      case Field(_, _) => [RenderPiece(pieces[0])] + RenderSegs(specs[1..], pieces[1..])
  }

  /** How many pieces one query spec binds. */
  function Arity(spec: QuerySpec<PieceKind>): nat
  {
    if Takes(spec) then 1 else 0
  }

  /** `Query::stmts` for one spec: a bare key, a literal value, or the placeholder's piece rendered. */
  function RenderPair(spec: QuerySpec<PieceKind>, h: seq<Piece>): (r: Raw.QueryPair)
    requires |h| == Arity(spec)
    ensures r.0 == spec.key && (r.1.None? <==> spec.value.None?)
    ensures spec.value.Some? && spec.value.value.Literal? ==> r.1 == Some(spec.value.value.text)
    ensures Takes(spec) ==> r.1 == Some(RenderPiece(h[0]))
  {
    match spec.value
    case None => (spec.key, None)
    case Some(Literal(s)) => (spec.key, Some(s))
    case Some(Field(_, _)) => (spec.key, Some(RenderPiece(h[0])))
  }

  /** The query pairs in spec order. */
  function RenderPairs(specs: seq<QuerySpec<PieceKind>>, pieces: seq<Piece>): (r: seq<Raw.QueryPair>)
    requires |pieces| == |QueryFields(specs)|
    ensures |r| == |specs|
    ensures forall i | 0 <= i < |r| :: r[i].0 == specs[i].key && (r[i].1.None? <==> specs[i].value.None?)
    decreases |specs|
  {
    if specs == [] then []
    else
      var n := Arity(specs[0]);
      [RenderPair(specs[0], pieces[..n])] + RenderPairs(specs[1..], pieces[n..])
  }

  /**
   * Spec `i` renders as its literal, or as the piece of its placeholder, which
   * is the piece after those of the placeholders before it.
   */
  lemma {:induction false} RenderSegsAt(specs: seq<RouteValue<PieceKind>>, pieces: seq<Piece>, i: nat)
    requires |pieces| == |Fields(specs)| && i < |specs|
    ensures specs[i].Literal? ==> RenderSegs(specs, pieces)[i] == specs[i].text
    ensures specs[i].Field? ==>
      |Fields(specs[..i])| < |pieces| && RenderSegs(specs, pieces)[i] == RenderPiece(pieces[|Fields(specs[..i])|])
    decreases i
  {
    var n := if specs[0].Field? then 1 else 0;
    if i == 0 {
      assert specs[..0] == [];
    } else {
      RenderSegsAt(specs[1..], pieces[n..], i - 1);
      FieldsPrefix(specs, i);
      assert specs[1..][i - 1] == specs[i];
    }
  }

  /**
   * Query spec `i` renders as its key with no value, its literal value, or the
   * piece of its placeholder, which is the piece after those of the
   * placeholders before it.
   */
  lemma {:induction false} RenderPairsAt(specs: seq<QuerySpec<PieceKind>>, pieces: seq<Piece>, i: nat)
    requires |pieces| == |QueryFields(specs)| && i < |specs|
    ensures RenderPairs(specs, pieces)[i].0 == specs[i].key
    ensures specs[i].value.None? ==> RenderPairs(specs, pieces)[i].1.None?
    ensures specs[i].value.Some? && specs[i].value.value.Literal? ==>
      RenderPairs(specs, pieces)[i].1 == Some(specs[i].value.value.text)
    ensures Takes(specs[i]) ==>
      |QueryFields(specs[..i])| < |pieces| &&
      RenderPairs(specs, pieces)[i].1 == Some(RenderPiece(pieces[|QueryFields(specs[..i])|]))
    decreases i
  {
    var n := Arity(specs[0]);
    if i == 0 {
      assert specs[..0] == [];
    } else {
      RenderPairsAt(specs[1..], pieces[n..], i - 1);
      QueryFieldsPrefix(specs, i);
      assert specs[1..][i - 1] == specs[i];
    }
  }

  /** `query()`: no pairs is no query at all. */
  function RouteQuery(pairs: seq<Raw.QueryPair>): (r: Option<seq<Raw.QueryPair>>)
    ensures r.None? <==> pairs == []
    ensures r.Some? ==> r.value == pairs
  {
    if pairs == [] then None else Some(pairs)
  }

  /** `path()` and `query()` of a variant whose pieces fit its template. */
  function RenderInput(t: Route, pieces: seq<Piece>): (r: Input)
    requires |pieces| == |TemplateFields(t)|
    ensures |r.0| == |t.path| && [] !in r.0
    ensures r.1.None? <==> t.query == []
  {
    var n := |Fields(t.path)|;
    var segs := RenderSegs(t.path, pieces[..n]);
    Normalize.RenderPathShape(segs);
    (Normalize.EscapePath(segs), RouteQuery(RenderPairs(t.query, pieces[n..])))
  }

  /** `Route::render` of that variant. */
  function RenderTarget(t: Route, pieces: seq<Piece>): Bytes
    requires |pieces| == |TemplateFields(t)|
  {
    var (path, query) := RenderInput(t, pieces);
    Raw.Render(path, query)
  }

  /** The segments and the map a rendered variant presents to `parse`, once normalised. */
  function RenderedSegs(t: Route, pieces: seq<Piece>): seq<Bytes>
    requires |pieces| == |TemplateFields(t)|
  {
    RenderSegs(t.path, pieces[..|Fields(t.path)|])
  }

  function RenderedMap(t: Route, pieces: seq<Piece>): QueryMap
    requires |pieces| == |TemplateFields(t)|
  {
    Build(RouteQuery(RenderPairs(t.query, pieces[|Fields(t.path)|..])))
  }

  /** No key named twice in a template's query. */
  predicate DistinctKeys(specs: seq<QuerySpec<PieceKind>>)
  {
    forall i, j | 0 <= i < j < |specs| :: specs[i].key != specs[j].key
  }

  // ---------------------------------------------------------------------------
  // Properties of matching
  // ---------------------------------------------------------------------------

  /** A path matches exactly when it has one segment per spec and each segment satisfies its spec. */
  lemma {:induction false} MatchPathIff(specs: seq<RouteValue<PieceKind>>, segs: seq<Bytes>)
    ensures MatchPath(specs, segs).Some? <==>
      |segs| == |specs| && forall i | 0 <= i < |specs| :: SegAccepts(specs[i], segs[i])
    decreases |specs|
  {
    if specs != [] && segs != [] {
      MatchPathIff(specs[1..], segs[1..]);
      if |segs| == |specs| && SegAccepts(specs[0], segs[0]) {
        assert (forall i | 0 <= i < |specs| :: SegAccepts(specs[i], segs[i])) <==>
               (forall i | 0 <= i < |specs| - 1 :: SegAccepts(specs[1..][i], segs[1..][i])) by {
          forall i | 0 <= i < |specs| - 1 ensures specs[1..][i] == specs[i + 1] && segs[1..][i] == segs[i + 1] {}
        }
      }
    }
  }

  /** One step of a successful path match. */
  lemma MatchPathStep(specs: seq<RouteValue<PieceKind>>, segs: seq<Bytes>)
    requires MatchPath(specs, segs).Some? && specs != []
    ensures segs != [] && MatchPath(specs[1..], segs[1..]).Some?
    ensures specs[0].Literal? ==> MatchPath(specs, segs).value == MatchPath(specs[1..], segs[1..]).value
    ensures specs[0].Field? ==> ParsePiece(specs[0].field, segs[0]).Some?
    ensures specs[0].Field? ==>
      MatchPath(specs, segs).value == [ParsePiece(specs[0].field, segs[0]).value] + MatchPath(specs[1..], segs[1..]).value
  {
  }

  /** The fields of a non-empty prefix: the head's field, then the fields of the rest. */
  lemma FieldsPrefix<F>(specs: seq<RouteValue<F>>, i: nat)
    requires 0 < i <= |specs|
    ensures Fields(specs[..i]) == (if specs[0].Field? then [specs[0].field] else []) + Fields(specs[1..][..i - 1])
  {
    assert specs[..i][1..] == specs[1..][..i - 1];
  }

  /** The piece bound by the placeholder at spec `i` is that segment parsed as the placeholder's type. */
  lemma {:induction false} MatchPathPieces(specs: seq<RouteValue<PieceKind>>, segs: seq<Bytes>, i: nat)
    requires MatchPath(specs, segs).Some? && i < |specs| && specs[i].Field?
    ensures |Fields(specs[..i])| < |Fields(specs)|
    ensures ParsePiece(specs[i].field, segs[i]) == Some(MatchPath(specs, segs).value[|Fields(specs[..i])|])
    decreases i
  {
    MatchPathStep(specs, segs);
    if i == 0 {
      assert specs[..0] == [];
    } else {
      MatchPathPieces(specs[1..], segs[1..], i - 1);
      FieldsPrefix(specs, i);
      assert specs[1..][i - 1] == specs[i] && segs[1..][i - 1] == segs[i];
    }
  }

  /** A query matches exactly when the map satisfies every query spec. */
  lemma {:induction false} MatchQueryIff(specs: seq<QuerySpec<PieceKind>>, m: QueryMap)
    ensures MatchQuery(specs, m).Some? <==> forall i | 0 <= i < |specs| :: PairAccepts(specs[i], m)
    decreases |specs|
  {
    if specs != [] {
      MatchQueryIff(specs[1..], m);
      PairAcceptsIff(specs[0], m);
      assert MatchQuery(specs, m).Some? <==> MatchPair(specs[0], m).Some? && MatchQuery(specs[1..], m).Some?;
      assert (forall i | 0 <= i < |specs| :: PairAccepts(specs[i], m)) <==>
             PairAccepts(specs[0], m) && (forall i | 0 <= i < |specs| - 1 :: PairAccepts(specs[1..][i], m)) by {
        forall i | 0 <= i < |specs| - 1 ensures specs[1..][i] == specs[i + 1] {}
      }
    }
  }

  /** The query fields of a non-empty prefix: the head's field, then the fields of the rest. */
  lemma QueryFieldsPrefix<F>(specs: seq<QuerySpec<F>>, i: nat)
    requires 0 < i <= |specs|
    ensures QueryFields(specs[..i]) == (if Takes(specs[0]) then [specs[0].value.value.field] else []) + QueryFields(specs[1..][..i - 1])
  {
    assert specs[..i][1..] == specs[1..][..i - 1];
  }

  /** One step of a successful query match. */
  lemma MatchQueryStep(specs: seq<QuerySpec<PieceKind>>, m: QueryMap)
    requires MatchQuery(specs, m).Some? && specs != []
    ensures MatchPair(specs[0], m).Some? && MatchQuery(specs[1..], m).Some?
    ensures |MatchPair(specs[0], m).value| == Arity(specs[0])
    ensures MatchQuery(specs, m).value == MatchPair(specs[0], m).value + MatchQuery(specs[1..], m).value
  {
  }

  /**
   * The piece bound by the placeholder of query spec `i` is the single value
   * of its key parsed as the placeholder's type.
   */
  lemma {:induction false} MatchQueryPieces(specs: seq<QuerySpec<PieceKind>>, m: QueryMap, i: nat)
    requires MatchQuery(specs, m).Some? && i < |specs| && Takes(specs[i])
    ensures |QueryFields(specs[..i])| < |QueryFields(specs)|
    ensures GetSingle(m, specs[i].key).Some?
    ensures ParsePiece(specs[i].value.value.field, GetSingle(m, specs[i].key).value) ==
      Some(MatchQuery(specs, m).value[|QueryFields(specs[..i])|])
    decreases i
  {
    MatchQueryStep(specs, m);
    var h := MatchPair(specs[0], m).value;
    var tail := MatchQuery(specs[1..], m).value;
    if i == 0 {
      assert specs[..0] == [];
    } else {
      MatchQueryPieces(specs[1..], m, i - 1);
      QueryFieldsPrefix(specs, i);
      assert specs[1..][i - 1] == specs[i];
      var k' := |QueryFields(specs[1..][..i - 1])|;
      assert |QueryFields(specs[..i])| == |h| + k';
      assert (h + tail)[|h| + k'] == tail[k'];
    }
  }

  lemma PairAcceptsIff(spec: QuerySpec<PieceKind>, m: QueryMap)
    ensures MatchPair(spec, m).Some? <==> PairAccepts(spec, m)
  {
  }

  lemma PairAgrees(spec: QuerySpec<PieceKind>, m1: QueryMap, m2: QueryMap)
    requires Contains(m1, spec.key) == Contains(m2, spec.key) && GetSingle(m1, spec.key) == GetSingle(m2, spec.key)
    ensures MatchPair(spec, m1) == MatchPair(spec, m2)
  {
  }

  /** Two maps that answer `contains` and `get_single` alike on every key of the specs match alike. */
  lemma {:induction false} QueryAgrees(specs: seq<QuerySpec<PieceKind>>, m1: QueryMap, m2: QueryMap)
    requires forall i | 0 <= i < |specs| ::
      Contains(m1, specs[i].key) == Contains(m2, specs[i].key) && GetSingle(m1, specs[i].key) == GetSingle(m2, specs[i].key)
    ensures MatchQuery(specs, m1) == MatchQuery(specs, m2)
    decreases |specs|
  {
    if specs != [] {
      assert forall i | 0 <= i < |specs| - 1 :: specs[1..][i] == specs[i + 1];
      QueryAgrees(specs[1..], m1, m2);
      PairAgrees(specs[0], m1, m2);
    }
  }

  /** Query pairs whose keys the template never names change nothing. */
  lemma QueryIgnoresOtherKeys(specs: seq<QuerySpec<PieceKind>>, pairs: seq<Raw.QueryPair>, extra: seq<Raw.QueryPair>)
    requires forall i, j | 0 <= i < |specs| && 0 <= j < |extra| :: extra[j].0 != specs[i].key
    ensures MatchQuery(specs, Build(Some(pairs + extra))) == MatchQuery(specs, Build(Some(pairs)))
  {
    var m1, m2 := Build(Some(pairs + extra)), Build(Some(pairs));
    forall i | 0 <= i < |specs|
      ensures Contains(m1, specs[i].key) == Contains(m2, specs[i].key)
      ensures GetSingle(m1, specs[i].key) == GetSingle(m2, specs[i].key)
    {
      LookupIgnoresOtherKeys(pairs, extra, specs[i].key);
    }
    QueryAgrees(specs, m1, m2);
  }

  /** The first match from `i` is variant `j` exactly when `j` matches and none between `i` and `j` does. */
  lemma FirstMatchIff(table: seq<Route>, segs: seq<Bytes>, m: QueryMap, i: nat, j: nat, ps: seq<Piece>)
    ensures FirstMatch(table, segs, m, i) == Some(Matched(j, ps)) <==>
      i <= j < |table| && MatchTemplate(table[j], segs, m) == Some(ps)
      && forall k | i <= k < j :: MatchTemplate(table[k], segs, m).None?
  {
    if FirstMatch(table, segs, m, i) == Some(Matched(j, ps)) {
      FirstMatchSound(table, segs, m, i, j, ps);
    }
    if i <= j < |table| && MatchTemplate(table[j], segs, m) == Some(ps)
       && forall k | i <= k < j :: MatchTemplate(table[k], segs, m).None?
    {
      FirstMatchComplete(table, segs, m, i, j, ps);
    }
  }

  lemma {:induction false} FirstMatchSound(table: seq<Route>, segs: seq<Bytes>, m: QueryMap, i: nat, j: nat, ps: seq<Piece>)
    requires FirstMatch(table, segs, m, i) == Some(Matched(j, ps))
    ensures i <= j < |table| && MatchTemplate(table[j], segs, m) == Some(ps)
    ensures forall k | i <= k < j :: MatchTemplate(table[k], segs, m).None?
    decreases |table| - i
  {
    var here := MatchTemplate(table[i], segs, m);
    if here.None? {
      assert FirstMatch(table, segs, m, i) == FirstMatch(table, segs, m, i + 1);
      FirstMatchSound(table, segs, m, i + 1, j, ps);
    } else {
      assert FirstMatch(table, segs, m, i) == Some(Matched(i, here.value));
    }
  }

  lemma {:induction false} FirstMatchComplete(table: seq<Route>, segs: seq<Bytes>, m: QueryMap, i: nat, j: nat, ps: seq<Piece>)
    requires i <= j < |table| && MatchTemplate(table[j], segs, m) == Some(ps)
    requires forall k | i <= k < j :: MatchTemplate(table[k], segs, m).None?
    ensures FirstMatch(table, segs, m, i) == Some(Matched(j, ps))
    decreases |table| - i
  {
    if i < j {
      assert MatchTemplate(table[i], segs, m).None?;
      assert FirstMatch(table, segs, m, i) == FirstMatch(table, segs, m, i + 1);
      FirstMatchComplete(table, segs, m, i + 1, j, ps);
    }
  }

  /** No match from `i` exactly when no template from `i` on matches. */
  lemma {:induction false} FirstMatchNone(table: seq<Route>, segs: seq<Bytes>, m: QueryMap, i: nat)
    ensures FirstMatch(table, segs, m, i).None? <==> forall k | i <= k < |table| :: MatchTemplate(table[k], segs, m).None?
    decreases |table| - i
  {
    if i < |table| {
      var here := MatchTemplate(table[i], segs, m);
      if here.None? {
        assert FirstMatch(table, segs, m, i) == FirstMatch(table, segs, m, i + 1);
        FirstMatchNone(table, segs, m, i + 1);
      } else {
        assert FirstMatch(table, segs, m, i) == Some(Matched(i, here.value));
      }
    }
  }

  /**
   * `parse` gives variant `j` exactly when the input is canonical, template
   * `j` matches it, and no earlier template does.
   */
  lemma ParseRouteIff(table: seq<Route>, path: seq<Bytes>, query: Option<seq<Raw.QueryPair>>, j: nat, ps: seq<Piece>)
    ensures ParseRoute(table, path, query) == Success(Matched(j, ps)) <==>
      && Normalize.NormalizedParse(path, query).Success?
      && var (segs, q) := Normalize.NormalizedParse(path, query).value;
      && j < |table| && MatchTemplate(table[j], segs, Build(q)) == Some(ps)
      && forall k | 0 <= k < j :: MatchTemplate(table[k], segs, Build(q)).None?
  {
    if Normalize.NormalizedParse(path, query).Success? {
      var (segs, q) := Normalize.NormalizedParse(path, query).value;
      FirstMatchIff(table, segs, Build(q), 0, j, ps);
    }
  }

  /** `parse` gives `NoMatch` exactly when the input is canonical and no template matches it. */
  lemma NoMatchIff(table: seq<Route>, path: seq<Bytes>, query: Option<seq<Raw.QueryPair>>)
    ensures ParseRoute(table, path, query) == Failure(NoMatch) <==>
      && Normalize.NormalizedParse(path, query).Success?
      && var (segs, q) := Normalize.NormalizedParse(path, query).value;
      && forall k | 0 <= k < |table| :: MatchTemplate(table[k], segs, Build(q)).None?
  {
    if Normalize.NormalizedParse(path, query).Success? {
      var (segs, q) := Normalize.NormalizedParse(path, query).value;
      FirstMatchNone(table, segs, Build(q), 0);
    }
  }

  // ---------------------------------------------------------------------------
  // Rendering then parsing
  // ---------------------------------------------------------------------------

  /** Rendered segments match their own specs and give the pieces back. */
  lemma {:induction false} MatchPathRendered(specs: seq<RouteValue<PieceKind>>, pieces: seq<Piece>)
    requires Fits(Fields(specs), pieces)
    ensures MatchPath(specs, RenderSegs(specs, pieces)) == Some(pieces)
    decreases |specs|
  {
    if specs != [] {
      var segs := RenderSegs(specs, pieces);
      assert segs[1..] == RenderSegs(specs[1..], if specs[0].Field? then pieces[1..] else pieces);
      if specs[0].Field? {
        assert Fields(specs) == [specs[0].field] + Fields(specs[1..]);
        assert Fits(Fields(specs[1..]), pieces[1..]) by {
          forall i | 0 <= i < |pieces| - 1 ensures pieces[1..][i].Kind() == Fields(specs[1..])[i] {
            assert pieces[1..][i] == pieces[i + 1];
          }
        }
        MatchPathRendered(specs[1..], pieces[1..]);
        PieceRoundTrip(pieces[0]);
        assert [pieces[0]] + pieces[1..] == pieces;
      } else {
        MatchPathRendered(specs[1..], pieces);
      }
    }
  }

  /** What a map must say about one rendered pair for the spec behind it to match. */
  predicate Answers(m: QueryMap, pair: Raw.QueryPair)
  {
    Contains(m, pair.0) && (pair.1.Some? ==> GetSingle(m, pair.0) == pair.1)
  }

  /** One query spec finds its rendered pair in a map that answers for it. */
  lemma PairRendered(spec: QuerySpec<PieceKind>, h: seq<Piece>, m: QueryMap)
    requires |h| == Arity(spec) && (Takes(spec) ==> h[0].Kind() == spec.value.value.field)
    requires Answers(m, RenderPair(spec, h))
    ensures MatchPair(spec, m) == Some(h)
  {
    if Takes(spec) {
      PieceRoundTrip(h[0]);
      assert [h[0]] == h;
    }
  }

  /** Query specs find their rendered pairs in any map that answers for each of them. */
  lemma {:induction false} MatchQueryRendered(specs: seq<QuerySpec<PieceKind>>, pieces: seq<Piece>, m: QueryMap)
    requires Fits(QueryFields(specs), pieces)
    requires forall i | 0 <= i < |specs| :: Answers(m, RenderPairs(specs, pieces)[i])
    ensures MatchQuery(specs, m) == Some(pieces)
    decreases |specs|
  {
    if specs != [] {
      var pairs := RenderPairs(specs, pieces);
      var n := Arity(specs[0]);
      var h, rest := pieces[..n], pieces[n..];
      assert pairs[0] == RenderPair(specs[0], h);
      assert pairs[1..] == RenderPairs(specs[1..], rest);
      assert forall i | 0 <= i < |specs| - 1 :: pairs[1..][i] == pairs[i + 1];
      assert QueryFields(specs) == (if Takes(specs[0]) then [specs[0].value.value.field] else []) + QueryFields(specs[1..]);
      assert Fits(QueryFields(specs[1..]), rest) by {
        forall i | 0 <= i < |rest| ensures rest[i].Kind() == QueryFields(specs[1..])[i] {
          assert rest[i] == pieces[n + i];
        }
      }
      MatchQueryRendered(specs[1..], rest, m);
      PairRendered(specs[0], h, m);
      assert h + rest == pieces;
    }
  }

  /** With distinct keys, the map built from the rendered pairs answers each key as the pairs do. */
  lemma RenderedMapAnswers(specs: seq<QuerySpec<PieceKind>>, pieces: seq<Piece>)
    requires |pieces| == |QueryFields(specs)| && DistinctKeys(specs)
    ensures forall i | 0 <= i < |specs| ::
      Answers(Build(RouteQuery(RenderPairs(specs, pieces))), RenderPairs(specs, pieces)[i])
  {
    var pairs := RenderPairs(specs, pieces);
    forall i | 0 <= i < |specs|
      ensures Contains(Build(RouteQuery(pairs)), pairs[i].0)
      ensures pairs[i].1.Some? ==> GetSingle(Build(RouteQuery(pairs)), pairs[i].0) == pairs[i].1
    {
      SingleOccurrence(pairs, i);
    }
  }

  /** The pieces of the path part and of the query part each fit their own placeholders. */
  lemma FitsSplit(t: Route, pieces: seq<Piece>)
    requires Fits(TemplateFields(t), pieces)
    ensures Fits(Fields(t.path), pieces[..|Fields(t.path)|])
    ensures Fits(QueryFields(t.query), pieces[|Fields(t.path)|..])
  {
    var n := |Fields(t.path)|;
    forall i | 0 <= i < |pieces| - n ensures pieces[n..][i].Kind() == QueryFields(t.query)[i] {
      assert pieces[n..][i] == pieces[n + i] && TemplateFields(t)[n + i] == QueryFields(t.query)[i];
    }
  }

  lemma MatchTemplateOf(t: Route, segs: seq<Bytes>, m: QueryMap, a: seq<Piece>, b: seq<Piece>)
    requires MatchPath(t.path, segs) == Some(a) && MatchQuery(t.query, m) == Some(b)
    ensures MatchTemplate(t, segs, m) == Some(a + b)
  {
  }

  /**
   * A variant's rendered segments and query match its own template and give
   * its pieces back, when the template names no query key twice.
   */
  lemma MatchRendered(t: Route, pieces: seq<Piece>)
    requires Fits(TemplateFields(t), pieces) && DistinctKeys(t.query)
    ensures MatchTemplate(t, RenderedSegs(t, pieces), RenderedMap(t, pieces)) == Some(pieces)
  {
    var n := |Fields(t.path)|;
    var segs, m := RenderedSegs(t, pieces), RenderedMap(t, pieces);
    RenderedPathMatches(t, pieces);
    RenderedQueryMatches(t, pieces);
    MatchTemplateOf(t, segs, m, pieces[..n], pieces[n..]);
    TakeDrop(pieces, n);
  }

  lemma RenderedPathMatches(t: Route, pieces: seq<Piece>)
    requires Fits(TemplateFields(t), pieces)
    ensures MatchPath(t.path, RenderedSegs(t, pieces)) == Some(pieces[..|Fields(t.path)|])
  {
    FitsSplit(t, pieces);
    MatchPathRendered(t.path, pieces[..|Fields(t.path)|]);
  }

  lemma RenderedQueryMatches(t: Route, pieces: seq<Piece>)
    requires Fits(TemplateFields(t), pieces) && DistinctKeys(t.query)
    ensures MatchQuery(t.query, RenderedMap(t, pieces)) == Some(pieces[|Fields(t.path)|..])
  {
    var b := pieces[|Fields(t.path)|..];
    FitsSplit(t, pieces);
    RenderedMapAnswers(t.query, b);
    MatchQueryRendered(t.query, b, RenderedMap(t, pieces));
  }

  /**
   * `parse` of what `path()` and `query()` give for variant `j` is variant
   * `j` with the same pieces, provided no earlier template matches that
   * input: the first template wins.
   */
  lemma ParseRendered(table: seq<Route>, j: nat, pieces: seq<Piece>)
    requires j < |table| && Fits(TemplateFields(table[j]), pieces) && DistinctKeys(table[j].query)
    requires forall k | 0 <= k < j :: MatchTemplate(table[k], RenderedSegs(table[j], pieces), RenderedMap(table[j], pieces)).None?
    ensures ParseRoute(table, RenderInput(table[j], pieces).0, RenderInput(table[j], pieces).1) == Success(Matched(j, pieces))
  {
    var t := table[j];
    var (path, query) := RenderInput(t, pieces);
    Normalize.ParseRenderPath(RenderedSegs(t, pieces), query);
    MatchRendered(t, pieces);
    ParseRouteIff(table, path, query, j, pieces);
  }

  /**
   * `render` then `parse_str` gives the same variant and pieces, when in
   * addition no rendered segment holds `%` and the rendered query survives
   * the wire codec.
   */
  lemma RoundTrip(table: seq<Route>, j: nat, pieces: seq<Piece>)
    requires j < |table| && Fits(TemplateFields(table[j]), pieces) && DistinctKeys(table[j].query)
    requires forall k | 0 <= k < j :: MatchTemplate(table[k], RenderedSegs(table[j], pieces), RenderedMap(table[j], pieces)).None?
    requires forall i | 0 <= i < |RenderedSegs(table[j], pieces)| :: '%' !in RenderedSegs(table[j], pieces)[i]
    requires var q := RenderInput(table[j], pieces).1; q.Some? ==> Raw.SafeQuery(q.value)
    ensures ParseStr(table, RenderTarget(table[j], pieces)) == Success(Matched(j, pieces))
  {
    var t := table[j];
    var segs := RenderedSegs(t, pieces);
    var (path, query) := RenderInput(t, pieces);
    forall i | 0 <= i < |path| ensures '%' !in path[i] {
      assert path[i] == Normalize.Escape(segs[i]);
    }
    assert path != [[]];
    Raw.ParseRender(path, query);
    ParseRendered(table, j, pieces);
  }
}
