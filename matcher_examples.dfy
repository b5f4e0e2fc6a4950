/**
 * The derive tests' route type, as a table of typed templates, and the
 * scenarios of those tests that agree with the current code:
 *
 *   Home      `/`
 *   Style     `style.css`
 *   Hello     `hello/{name}`   name: String
 *   Foo       `foo?bar={bar}`  bar: i32
 *   Goodbye   `/goodbye/{}`    String
 */
module MatcherExamples {
  import opened Wrappers
  import opened Text
  import Raw
  import opened Normalize
  import opened QueryMaps
  import opened Pieces
  import opened Routes
  import opened Templates
  import opened Matcher
  import opened Words
  import TemplatesExamples

  function MyRoutes(): seq<Route>
  {
    [ Template([], []),
      Template([Literal("style.css")], []),
      Template([Literal("hello"), Field(TextKind, 1)], []),
      Template([Literal("foo")], [QuerySpec("bar", Some(Field(I32Kind, 1)))]),
      Template([Literal("goodbye"), Field(TextKind, 1)], []) ]
  }

  /** A variant's route attribute, with its shape, its declared fields and their piece types in order. */
  datatype Attribute = Attribute(kind: VariantKind, raw: Bytes, fields: seq<FieldDecl>, types: seq<PieceKind>)

  function MyAttributes(): seq<Attribute>
  {
    [ Attribute(UnitVariant, "/", [], []),
      Attribute(UnitVariant, "style.css", [], []),
      Attribute(NamedVariant, "hello/{name}", [Some("name")], [TextKind]),
      Attribute(NamedVariant, "foo?bar={bar}", [Some("bar")], [I32Kind]),
      Attribute(TupleVariant, "/goodbye/{}", [None], [TextKind]) ]
  }

  /** The typing step on a path of one literal segment and perhaps a placeholder after it. */
  lemma TypedPath(a: Bytes, fs: seq<RouteValue<FieldRef>>, kinds: seq<PieceKind>, ts: seq<RouteValue<PieceKind>>)
    requires (fs == [] && kinds == [] && ts == []) ||
             (|fs| == 1 && fs[0].Field? && |kinds| == 1 && ts == [Field(kinds[0], fs[0].local)])
    ensures |Fields([Literal(a)] + fs)| == |kinds|
    ensures TypedSegs([Literal(a)] + fs, kinds) == [Literal(a)] + ts
  {
    var vs := [Literal(a)] + fs;
    assert vs[1..] == fs;
    if fs != [] {
      assert fs[1..] == [];
      assert Fields(fs) == [fs[0].field];
    }
  }

  /** Whether attribute `a` compiles, has one type per placeholder, and typing gives `r`. */
  predicate Gives(a: Attribute, r: Route)
  {
    var c := Compiled(a.kind, a.raw, a.fields);
    && c.Success?
    && |a.types| == |TemplateFields(c.value)|
    && r == Typed(c.value, a.types)
  }

  lemma HomeGives(a: Attribute, r: Route)
    requires a == Attribute(UnitVariant, "/", [], []) && r == Template([], [])
    ensures Gives(a, r)
  {
    TemplatesExamples.RootExample(a.raw);
  }

  lemma StyleGives(a: Attribute, r: Route)
    requires a == Attribute(UnitVariant, "style.css", [], []) && r == Template([Literal("style.css")], [])
    ensures Gives(a, r)
  {
    var lit: RouteValue<FieldRef> := Literal(a.raw);
    TemplatesExamples.StyleAttribute(a.raw);
    TypedPath(a.raw, [], [], []);
    assert [lit] + [] == [lit];
  }

  /** Typing a literal followed by one placeholder. */
  lemma TypedLiteralField(a: Bytes, f: FieldRef, k: PieceKind)
    ensures |TemplateFields(Template([Literal(a), Field(f, 1)], []))| == 1
    ensures Typed(Template([Literal(a), Field(f, 1)], []), [k]) == Template([Literal(a), Field(k, 1)], [])
  {
    var x: RouteValue<FieldRef> := Field(f, 1);
    var t := Template([Literal(a), x], []);
    var kinds := [k];
    TypedPath(a, [x], kinds, [Field(k, 1)]);
    assert [Literal(a)] + [x] == t.path;
    assert [Literal(a)] + [Field(k, 1)] == [Literal(a), Field(k, 1)];
    assert kinds[..1] == kinds && kinds[1..] == [];
  }

  lemma HelloGives(a: Attribute, r: Route)
    requires a == Attribute(NamedVariant, "hello/{name}", [Some("name")], [TextKind])
    requires r == Template([Literal("hello"), Field(TextKind, 1)], [])
    ensures Gives(a, r)
  {
    var hello, name := r.path[0].text, a.fields[0].value;
    TemplatesExamples.HelloAttribute(a.raw);
    TypedLiteralField(hello, NamedField(name), a.types[0]);
  }

  /** Typing the template of `foo?bar={bar}`. */
  lemma FooTyped(t: Template<FieldRef>, kinds: seq<PieceKind>)
    requires t == Template([Literal("foo")], [QuerySpec("bar", Some(Field(NamedField("bar"), 1)))]) && kinds == [I32Kind]
    ensures |TemplateFields(t)| == 1
    ensures Typed(t, kinds) == Template([Literal("foo")], [QuerySpec("bar", Some(Field(I32Kind, 1)))])
  {
    var lit: RouteValue<FieldRef> := t.path[0];
    TypedPath(lit.text, [], [], []);
    assert [lit] + [] == [lit];
    assert t.query[1..] == [];
    assert QueryFields(t.query) == [NamedField("bar")];
    assert kinds[..0] == [] && kinds[0..] == kinds;
    assert TypedPairs(t.query, kinds) == [QuerySpec("bar", Some(Field(I32Kind, 1)))];
  }

  lemma FooGives(a: Attribute, r: Route)
    requires a == Attribute(NamedVariant, "foo?bar={bar}", [Some("bar")], [I32Kind])
    requires r == Template([Literal("foo")], [QuerySpec("bar", Some(Field(I32Kind, 1)))])
    ensures Gives(a, r)
  {
    var foo, bar := r.path[0].text, a.fields[0].value;
    TemplatesExamples.FooAttribute(a.raw);
    FooTyped(Template([Literal(foo)], [QuerySpec(bar, Some(Field(NamedField(bar), 1)))]), a.types);
  }

  lemma GoodbyeGives(a: Attribute, r: Route)
    requires a == Attribute(TupleVariant, "/goodbye/{}", [None], [TextKind])
    requires r == Template([Literal("goodbye"), Field(TextKind, 1)], [])
    ensures Gives(a, r)
  {
    var goodbye := r.path[0].text;
    TemplatesExamples.GoodbyeAttribute(a.raw);
    TypedLiteralField(goodbye, TupleField, a.types[0]);
  }

  lemma EntryHome(attrs: seq<Attribute>, routes: seq<Route>)
    requires attrs == MyAttributes() && routes == MyRoutes()
    ensures Gives(attrs[0], routes[0])
  {
    HomeGives(attrs[0], routes[0]);
  }

  lemma EntryStyle(attrs: seq<Attribute>, routes: seq<Route>)
    requires attrs == MyAttributes() && routes == MyRoutes()
    ensures Gives(attrs[1], routes[1])
  {
    StyleGives(attrs[1], routes[1]);
  }

  lemma EntryHello(attrs: seq<Attribute>, routes: seq<Route>)
    requires attrs == MyAttributes() && routes == MyRoutes()
    ensures Gives(attrs[2], routes[2])
  {
    HelloGives(attrs[2], routes[2]);
  }

  lemma EntryFoo(attrs: seq<Attribute>, routes: seq<Route>)
    requires attrs == MyAttributes() && routes == MyRoutes()
    ensures Gives(attrs[3], routes[3])
  {
    FooGives(attrs[3], routes[3]);
  }

  lemma EntryGoodbye(attrs: seq<Attribute>, routes: seq<Route>)
    requires attrs == MyAttributes() && routes == MyRoutes()
    ensures Gives(attrs[4], routes[4])
  {
    GoodbyeGives(attrs[4], routes[4]);
  }

  /**
   * The table is the derive tests' five route attributes, compiled in
   * declaration order, each placeholder typed by the field it takes.
   */
  lemma MyRoutesCompiled(attrs: seq<Attribute>, routes: seq<Route>)
    requires attrs == MyAttributes() && routes == MyRoutes()
    ensures |routes| == |attrs| == 5
    ensures Gives(attrs[0], routes[0]) && Gives(attrs[1], routes[1]) && Gives(attrs[2], routes[2])
    ensures Gives(attrs[3], routes[3]) && Gives(attrs[4], routes[4])
  {
    EntryHome(attrs, routes);
    EntryStyle(attrs, routes);
    EntryHello(attrs, routes);
    EntryFoo(attrs, routes);
    EntryGoodbye(attrs, routes);
  }

  /** Segments that are neither empty nor start with `-` pass the normaliser unchanged, both ways. */
  lemma Canonical(path: seq<Bytes>, query: Option<seq<Raw.QueryPair>>)
    requires forall i | 0 <= i < |path| :: |path[i]| > 0 && path[i][0] != '-'
    ensures NormalizedParse(path, query) == Success((path, query))
    ensures EscapePath(path) == path
  {
    forall i | 0 <= i < |path| ensures !AllDashes(path[i]) && Unescape(path[i]) == path[i] && Escape(path[i]) == path[i] {
      assert path[i][0] != '-';
    }
    assert [] !in path;
    assert seq(|path|, i requires 0 <= i < |path| => Unescape(path[i])) == path;
  }

  // ---------------------------------------------------------------------------
  // `/hello/alice`
  // ---------------------------------------------------------------------------

  /** A template without query specs matches exactly when its path does. */
  lemma PathTemplate(t: Route, segs: seq<Bytes>, m: QueryMap)
    requires t.query == []
    ensures MatchTemplate(t, segs, m) == MatchPath(t.path, segs)
  {
    if MatchPath(t.path, segs).Some? {
      var a := MatchPath(t.path, segs).value;
      assert a + [] == a;
    }
  }

  /** A literal segment followed by one placeholder. */
  lemma LiteralThenField(specs: seq<RouteValue<PieceKind>>, segs: seq<Bytes>, p: Piece)
    requires |specs| == 2 && |segs| == 2 && specs[0] == Literal(segs[0]) && specs[1].Field?
    requires ParsePiece(specs[1].field, segs[1]) == Some(p)
    ensures MatchPath(specs, segs) == Some([p])
  {
    var x := specs[1..];
    var y := segs[1..];
    assert x[1..] == [] && y[1..] == [];
    assert MatchPath(x, y) == Prepend([p], MatchPath([], []));
    assert [p] + [] == [p];
  }

  lemma HelloMatches(table: seq<Route>, segs: seq<Bytes>, m: QueryMap)
    requires table == MyRoutes() && segs == ["hello", "alice"]
    ensures MatchTemplate(table[0], segs, m).None? && MatchTemplate(table[1], segs, m).None?
    ensures MatchTemplate(table[2], segs, m) == Some([Text("alice")])
  {
    PathTemplate(table[0], segs, m);
    PathTemplate(table[1], segs, m);
    PathTemplate(table[2], segs, m);
    LiteralThenField(table[2].path, segs, Text("alice"));
  }

  lemma HelloRoute(table: seq<Route>, segs: seq<Bytes>)
    requires table == MyRoutes() && segs == ["hello", "alice"]
    ensures ParseRoute(table, segs, None) == Success(Matched(2, [Text("alice")]))
  {
    HelloMatches(table, segs, Build(None));
    Canonical(segs, None);
    ParseRouteIff(table, segs, None, 2, [Text("alice")]);
  }

  /** `/hello/alice` is `Hello { name: "alice" }`: the two earlier templates do not match it. */
  lemma ParseHelloExample(table: seq<Route>, s: Bytes)
    requires table == MyRoutes() && s == "/hello/alice"
    ensures ParseStr(table, s) == Success(Matched(2, [Text("alice")]))
  {
    var a: Bytes := "hello";
    var b: Bytes := "alice";
    assert s == ['/'] + a + ['/'] + b;
    TwoSegmentsInput(s, a, b);
    HelloRoute(table, [a, b]);
  }

  /** With a trailing `/` the input is not canonical: the redirect target drops it. */
  lemma TrailingSlashRoute(table: seq<Route>, segs: seq<Bytes>)
    requires segs == ["hello", "alice", []]
    ensures ParseRoute(table, segs, None) == Failure(NormalizationFailed("/hello/alice"))
  {
    var kept: seq<Bytes> := ["hello", "alice"];
    assert segs[2] == [];
    assert NonEmpty(segs) == kept by {
      var last: seq<Bytes> := [[]];
      assert segs[1..] == ["alice", []] && segs[1..][1..] == last && last[1..] == [];
      assert NonEmpty(last) == [];
      assert NonEmpty(segs[1..]) == ["alice"];
    }
    HelloText(kept);
  }

  lemma TrailingSlashSegments(s: Bytes, segs: seq<Bytes>)
    requires s == "/hello/alice/" && segs == ["hello", "alice", []]
    ensures Raw.ParsePathAndQuery(s) == (segs, None)
  {
    var a: Bytes := "hello";
    var b: Bytes := "alice";
    assert s == ['/'] + a + ['/'] + b + ['/'];
    TrailingSlashInput(s, a, b);
  }

  lemma ParseHelloTrailingSlashExample(table: seq<Route>, s: Bytes)
    requires table == MyRoutes() && s == "/hello/alice/"
    ensures ParseStr(table, s) == Failure(NormalizationFailed("/hello/alice"))
  {
    var segs: seq<Bytes> := ["hello", "alice", []];
    TrailingSlashSegments(s, segs);
    TrailingSlashRoute(table, segs);
  }

  // ---------------------------------------------------------------------------
  // `foo?bar=42` and `foo?bar=fortytwo`
  // ---------------------------------------------------------------------------

  /** Template `Foo` against the segment `foo` and the one value `v` of `bar`. */
  lemma FooTemplate(t: Route, segs: seq<Bytes>, m: QueryMap, v: Bytes)
    requires t == Template([Literal("foo")], [QuerySpec("bar", Some(Field(I32Kind, 1)))])
    requires segs == ["foo"] && GetSingle(m, "bar") == Some(v)
    ensures MatchTemplate(t, segs, m) == match ParsePiece(I32Kind, v) case None => None case Some(p) => Some([p])
  {
    assert t.path[1..] == [] && segs[1..] == [];
    assert MatchPath(t.path, segs) == Some([]);
    assert t.query[1..] == [];
    match ParsePiece(I32Kind, v)
    case None =>
      assert MatchPair(t.query[0], m).None?;
    case Some(p) =>
      assert MatchPair(t.query[0], m) == Some([p]);
      assert [p] + [] == [p];
      assert MatchQuery(t.query, m) == Some([p]);
      assert [] + [p] == [p];
  }

  /**
   * The route part of `foo?bar=v`: template `Foo` when `v` is an `i32`,
   * no match at all otherwise.
   */
  lemma FooRoute(table: seq<Route>, segs: seq<Bytes>, pairs: seq<Raw.QueryPair>, v: Bytes)
    requires table == MyRoutes() && segs == ["foo"] && pairs == [("bar", Some(v))]
    ensures ParseRoute(table, segs, Some(pairs)) ==
      match ParsePiece(I32Kind, v) case None => Failure(NoMatch) case Some(p) => Success(Matched(3, [p]))
  {
    var m := Build(Some(pairs));
    SingleOccurrence(pairs, 0);
    FooTemplate(table[3], segs, m, v);
    PathTemplate(table[0], segs, m);
    PathTemplate(table[1], segs, m);
    PathTemplate(table[2], segs, m);
    PathTemplate(table[4], segs, m);
    Canonical(segs, Some(pairs));
    match ParsePiece(I32Kind, v)
    case None =>
      NoMatchIff(table, segs, Some(pairs));
    case Some(p) =>
      ParseRouteIff(table, segs, Some(pairs), 3, [p]);
  }

  /** `foo?bar=v` for a plain `v`. */
  lemma FooInput(s: Bytes, v: Bytes, segs: seq<Bytes>, pairs: seq<Raw.QueryPair>)
    requires s == "foo?bar=" + v && Plain(v) && segs == ["foo"] && pairs == [("bar", Some(v))]
    ensures Raw.ParsePathAndQuery(s) == (segs, Some(pairs))
  {
    var p: Bytes := "foo";
    var k: Bytes := "bar";
    assert s == p + ['?'] + k + ['='] + v;
    OnePairInput(s, p, k, v);
  }

  lemma FooNumberRoute(table: seq<Route>, segs: seq<Bytes>, pairs: seq<Raw.QueryPair>)
    requires table == MyRoutes() && segs == ["foo"] && pairs == [("bar", Some("42"))]
    ensures ParseRoute(table, segs, Some(pairs)) == Success(Matched(3, [Int(42)]))
  {
    I32Examples();
    FooRoute(table, segs, pairs, "42");
  }

  lemma FooWordRoute(table: seq<Route>, segs: seq<Bytes>, pairs: seq<Raw.QueryPair>)
    requires table == MyRoutes() && segs == ["foo"] && pairs == [("bar", Some("fortytwo"))]
    ensures ParseRoute(table, segs, Some(pairs)) == Failure(NoMatch)
  {
    I32RejectsWords();
    FooRoute(table, segs, pairs, "fortytwo");
  }

  /** `foo?bar=42` is `Foo { bar: 42 }`. */
  lemma ParseFooExample(table: seq<Route>, s: Bytes)
    requires table == MyRoutes() && s == "foo?bar=42"
    ensures ParseStr(table, s) == Success(Matched(3, [Int(42)]))
  {
    var segs: seq<Bytes> := ["foo"];
    var pairs: seq<Raw.QueryPair> := [("bar", Some("42"))];
    FooInput(s, "42", segs, pairs);
    FooNumberRoute(table, segs, pairs);
  }

  /** `foo?bar=fortytwo` matches nothing: `fortytwo` is not an `i32`. */
  lemma ParseFooWordExample(table: seq<Route>, s: Bytes)
    requires table == MyRoutes() && s == "foo?bar=fortytwo"
    ensures ParseStr(table, s) == Failure(NoMatch)
  {
    var segs: seq<Bytes> := ["foo"];
    var pairs: seq<Raw.QueryPair> := [("bar", Some("fortytwo"))];
    FooInput(s, "fortytwo", segs, pairs);
    FooWordRoute(table, segs, pairs);
  }

  // ---------------------------------------------------------------------------
  // `/style.css?foo`: a query key no template names is ignored
  // ---------------------------------------------------------------------------

  lemma StyleRoute(table: seq<Route>, segs: seq<Bytes>, pairs: seq<Raw.QueryPair>)
    requires table == MyRoutes() && segs == ["style.css"] && pairs == [("foo", None)]
    ensures ParseRoute(table, segs, Some(pairs)) == Success(Matched(1, []))
  {
    var m := Build(Some(pairs));
    PathTemplate(table[0], segs, m);
    PathTemplate(table[1], segs, m);
    assert table[1].path[1..] == [] && segs[1..] == [];
    Canonical(segs, Some(pairs));
    ParseRouteIff(table, segs, Some(pairs), 1, []);
  }

  lemma ParseStyleExample(table: seq<Route>, s: Bytes)
    requires table == MyRoutes() && s == "/style.css?foo"
    ensures ParseStr(table, s) == Success(Matched(1, []))
  {
    var a: Bytes := "style.css";
    var k: Bytes := "foo";
    assert s == ['/'] + a + ['?'] + k;
    BareKeyInput(s, a, k);
    StyleRoute(table, [a], [(k, None)]);
  }

  // ---------------------------------------------------------------------------
  // `/does/not/exist`
  // ---------------------------------------------------------------------------

  lemma UnknownRoute(table: seq<Route>, segs: seq<Bytes>)
    requires table == MyRoutes() && segs == ["does", "not", "exist"]
    ensures ParseRoute(table, segs, None) == Failure(NoMatch)
  {
    Canonical(segs, None);
    assert forall k | 0 <= k < |table| :: |table[k].path| < 3;
    NoMatchIff(table, segs, None);
  }

  lemma UnknownInput(s: Bytes, segs: seq<Bytes>)
    requires s == "/does/not/exist" && segs == ["does", "not", "exist"]
    ensures Raw.ParsePathAndQuery(s) == (segs, None)
  {
    var a: Bytes := "does";
    var b: Bytes := "not";
    var c: Bytes := "exist";
    assert s == ['/'] + a + ['/'] + b + ['/'] + c;
    ThreeSegmentsInput(s, a, b, c);
  }

  /** `/does/not/exist` has more segments than any template. */
  lemma ParseUnknownExample(table: seq<Route>, s: Bytes)
    requires table == MyRoutes() && s == "/does/not/exist"
    ensures ParseStr(table, s) == Failure(NoMatch)
  {
    var segs: seq<Bytes> := ["does", "not", "exist"];
    UnknownInput(s, segs);
    UnknownRoute(table, segs);
  }

  // ---------------------------------------------------------------------------
  // Rendering
  // ---------------------------------------------------------------------------

  /** `Home` renders as `/`. */
  lemma RenderHomeExample(table: seq<Route>)
    requires table == MyRoutes()
    ensures RenderTarget(table[0], []) == "/"
  {
  }

  /**
   * `Style` renders as `/style.css`: neither encode set escapes `.`, so the
   * target is not the `/style%2Ecss` an older encode set gave.
   */
  lemma RenderStyleExample(t: Route)
    requires t == MyRoutes()[1]
    ensures RenderTarget(t, []) == "/style.css"
  {
    var segs: seq<Bytes> := ["style.css"];
    StyleInput(t, segs);
    StyleText(segs);
  }

  lemma StyleInput(t: Route, segs: seq<Bytes>)
    requires t == MyRoutes()[1] && segs == ["style.css"]
    ensures RenderInput(t, []) == (segs, None)
  {
    assert t.path[1..] == [];
    assert RenderSegs(t.path, []) == segs;
    Canonical(segs, None);
  }

  lemma StyleText(segs: seq<Bytes>)
    requires segs == ["style.css"]
    ensures Raw.Render(segs, None) == "/style.css"
  {
    Raw.EncodePlain(segs[0], Raw.PathSet);
    OneSegmentText(segs[0]);
    StyleSpelling(segs[0]);
  }

  lemma StyleSpelling(a: Bytes)
    requires a == "style.css"
    ensures ['/'] + a == "/style.css"
  {
  }

  lemma HelloInput(t: Route, segs: seq<Bytes>)
    requires t == MyRoutes()[2] && segs == ["hello", "alice"]
    ensures RenderInput(t, [Text("alice")]) == (segs, None)
  {
    var x: seq<RouteValue<PieceKind>> := [Field(TextKind, 1)];
    assert t.path[1..] == x && x[1..] == [];
    assert Fields(t.path) == [TextKind];
    assert RenderSegs(x, [Text("alice")]) == ["alice"];
    assert RenderSegs(t.path, [Text("alice")]) == segs;
    Canonical(segs, None);
  }

  lemma HelloText(segs: seq<Bytes>)
    requires segs == ["hello", "alice"]
    ensures Raw.Render(segs, None) == "/hello/alice"
  {
    TwoSegmentsText(segs[0], segs[1]);
    HelloSpelling(segs[0], segs[1]);
  }

  lemma HelloSpelling(a: Bytes, b: Bytes)
    requires a == "hello" && b == "alice"
    ensures ['/'] + a + ['/'] + b == "/hello/alice"
  {
  }

  /** `Hello { name: "alice" }` renders as `/hello/alice`. */
  lemma RenderHelloExample(t: Route)
    requires t == MyRoutes()[2]
    ensures RenderTarget(t, [Text("alice")]) == "/hello/alice"
  {
    var segs: seq<Bytes> := ["hello", "alice"];
    HelloInput(t, segs);
    HelloText(segs);
  }

  lemma FooRenderInput(t: Route, segs: seq<Bytes>, pairs: seq<Raw.QueryPair>)
    requires t == MyRoutes()[3] && segs == ["foo"] && pairs == [("bar", Some("42"))]
    ensures RenderInput(t, [Int(42)]) == (segs, Some(pairs))
  {
    I32Examples();
    var pieces: seq<Piece> := [Int(42)];
    assert t.path[1..] == [] && t.query[1..] == [];
    assert Fields(t.path) == [];
    assert pieces[..0] == [] && pieces[0..] == pieces && pieces[..1] == pieces && pieces[1..] == [];
    assert RenderSegs(t.path, pieces[..0]) == segs;
    assert RenderPair(t.query[0], pieces) == pairs[0];
    assert RenderPairs(t.query[1..], []) == [];
    assert RenderPairs(t.query, pieces[0..]) == pairs;
    assert RouteQuery(pairs) == Some(pairs);
    Canonical(segs, None);
  }

  lemma FooText(segs: seq<Bytes>, pairs: seq<Raw.QueryPair>)
    requires segs == ["foo"] && pairs == [("bar", Some("42"))]
    ensures Raw.Render(segs, Some(pairs)) == "/foo?bar=42"
  {
    OnePairText(segs[0], pairs[0].0, pairs[0].1.value);
    FooSpelling(segs[0], pairs[0].0, pairs[0].1.value);
  }

  lemma FooSpelling(p: Bytes, k: Bytes, v: Bytes)
    requires p == "foo" && k == "bar" && v == "42"
    ensures ['/'] + p + ['?'] + k + ['='] + v == "/foo?bar=42"
  {
  }

  /** `Foo { bar: 42 }` renders as `/foo?bar=42`. */
  lemma RenderFooExample(t: Route)
    requires t == MyRoutes()[3]
    ensures RenderTarget(t, [Int(42)]) == "/foo?bar=42"
  {
    var segs: seq<Bytes> := ["foo"];
    var pairs: seq<Raw.QueryPair> := [("bar", Some("42"))];
    FooRenderInput(t, segs, pairs);
    FooText(segs, pairs);
  }

  // ---------------------------------------------------------------------------
  // The first template wins
  // ---------------------------------------------------------------------------

  /**
   * A placeholder declared before a literal shadows it: `Goodbye("x")`
   * renders to the segments `goodbye`, `x`, but in a table whose first
   * template is `{}/{}` (two `String`s) those parse as the first variant.
   */
  lemma ShadowingExample(table: seq<Route>, segs: seq<Bytes>)
    requires table == [Template([Field(TextKind, 1), Field(TextKind, 2)], []), MyRoutes()[4]]
    requires segs == ["goodbye", "x"]
    ensures RenderInput(table[1], [Text("x")]) == (segs, None)
    ensures ParseRoute(table, segs, None) == Success(Matched(0, [Text("goodbye"), Text("x")]))
  {
    var t := table[1];
    var x: seq<RouteValue<PieceKind>> := [Field(TextKind, 1)];
    assert t.path[1..] == x && x[1..] == [];
    assert RenderSegs(x, [Text("x")]) == ["x"];
    assert RenderSegs(t.path, [Text("x")]) == segs;
    Canonical(segs, None);
    var first := table[0].path;
    var y: seq<RouteValue<PieceKind>> := [Field(TextKind, 2)];
    var rest: seq<Bytes> := ["x"];
    assert first[1..] == y && y[1..] == [] && segs[1..] == rest && rest[1..] == [];
    assert MatchPath(y, rest) == Some([Text("x")]) by {
      assert [Text("x")] + [] == [Text("x")];
    }
    assert [Text("goodbye")] + [Text("x")] == [Text("goodbye"), Text("x")];
    assert MatchPath(first, segs) == Some([Text("goodbye"), Text("x")]);
    PathTemplate(table[0], segs, Build(None));
    ParseRouteIff(table, segs, None, 0, [Text("goodbye"), Text("x")]);
  }
}
