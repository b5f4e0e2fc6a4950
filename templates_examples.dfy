/** Concrete route attributes through the template compiler. */
module TemplatesExamples {
  import opened Wrappers
  import opened Text
  import opened Templates

  /** How single pieces are classified, `a}` included. */
  lemma RawValueExamples()
    ensures ParseRawValue("{}") == Success(Positional)
    ensures ParseRawValue("{name}") == Success(NamedRaw("name"))
    ensures ParseRawValue("{x") == Failure(InvalidRouteValue("{x"))
    ensures ParseRawValue("a}") == Success(RawLiteral("a}"))
    ensures ParseRawValue("") == Success(RawLiteral(""))
  {
    assert "{name}"[1..5] == "name";
  }

  /** A piece that does not open with `{` is a literal, whatever the variant. */
  lemma LiteralPiece(kind: VariantKind, s: Bytes, counter: nat, fields: seq<FieldDecl>)
    requires |s| == 0 || s[0] != '{'
    ensures CompileValue(kind, s, counter, fields) == Success((Literal(s), counter, fields))
  {
  }

  /** `{}` in a tuple variant takes the next number and pops a field. */
  lemma PositionalPiece(s: Bytes, counter: nat, fields: seq<FieldDecl>)
    requires s == "{}" && fields != []
    ensures CompileValue(TupleVariant, s, counter, fields) ==
      Success((Field(TupleField, counter + 1), counter + 1, fields[..|fields| - 1]))
  {
  }

  /** `CompileSegs` of a non-empty list, from its first value and the rest. */
  lemma SegsCons(kind: VariantKind, pieces: seq<Bytes>, counter: nat, fields: seq<FieldDecl>,
                 v: RouteValue<FieldRef>, c: nat, rest: seq<FieldDecl>, vs: seq<RouteValue<FieldRef>>, left: seq<FieldDecl>)
    requires pieces != []
    requires CompileValue(kind, pieces[0], counter, fields) == Success((v, c, rest))
    requires CompileSegs(kind, pieces[1..], c, rest) == Success((vs, left))
    ensures CompileSegs(kind, pieces, counter, fields) == Success(([v] + vs, left))
  {
  }

  /** `CompilePairs` of a non-empty list, from its first spec and the rest. */
  lemma PairsCons(kind: VariantKind, pieces: seq<Bytes>, counter: nat, fields: seq<FieldDecl>,
                  q: QuerySpec<FieldRef>, c: nat, rest: seq<FieldDecl>, qs: seq<QuerySpec<FieldRef>>, left: seq<FieldDecl>)
    requires pieces != []
    requires CompilePair(kind, pieces[0], counter, fields) == Success((q, c, rest))
    requires CompilePairs(kind, pieces[1..], c, rest) == Success((qs, left))
    ensures CompilePairs(kind, pieces, counter, fields) == Success(([q] + qs, left))
  {
  }

  /** The path `lit/{}` in a tuple variant: the literal, then the first placeholder. */
  lemma LiteralPlaceholderPath(lit: Bytes, p: Bytes, fields: seq<FieldDecl>)
    requires lit != [] && lit[0] != '{' && '/' !in lit && fields != []
    requires p == lit + ['/'] + "{}"
    ensures PathSpecs(TupleVariant, p, fields) == Success(([Literal(lit), Field(TupleField, 1)], fields[..|fields| - 1]))
  {
    var pieces: seq<Bytes> := [lit, "{}"];
    assert Join(pieces, '/') == p by {
      assert pieces[1..] == [pieces[1]];
    }
    SplitJoin(pieces, '/');
    assert PathPieces(p) == pieces;
    var one := fields[..|fields| - 1];
    var tail := pieces[1..];
    assert tail[0] == pieces[1] && tail[1..] == [];
    var lv: RouteValue<FieldRef> := Literal(lit);
    var x: RouteValue<FieldRef> := Field(TupleField, 1);
    LiteralPiece(TupleVariant, lit, 0, fields);
    PositionalPiece(pieces[1], 0, fields);
    assert CompileSegs(TupleVariant, [], 1, one) == Success(([], one));
    SegsCons(TupleVariant, tail, 0, fields, x, 1, one, [], one);
    assert [x] + [] == [x];
    SegsCons(TupleVariant, pieces, 0, fields, lv, 0, fields, [x], one);
    assert [lv] + [x] == [lv, x];
  }

  lemma FooTuplePath(p: Bytes)
    requires p == "foo/{}"
    ensures PathSpecs(TupleVariant, p, [None, None]) == Success(([Literal("foo"), Field(TupleField, 1)], [None]))
  {
    var lit: Bytes := "foo";
    var fields: seq<FieldDecl> := [None, None];
    assert p == lit + ['/'] + "{}";
    LiteralPlaceholderPath(lit, p, fields);
    assert fields[..1] == [None];
  }

  lemma KeyPair(raw: Bytes, fields: seq<FieldDecl>)
    requires raw == "k={}" && fields == [None]
    ensures CompilePair(TupleVariant, raw, 0, fields) == Success((QuerySpec("k", Some(Field(TupleField, 1))), 1, []))
  {
    SplitFirstAt("k", '=', "{}");
    assert "k" + ['='] + "{}" == raw;
    PositionalPiece("{}", 0, fields);
    assert fields[..0] == [];
  }

  lemma FooTupleQueryPieces(q: Bytes)
    requires q == "k={}&flag"
    ensures Split(q, '&') == ["k={}", "flag"]
  {
    var pieces: seq<Bytes> := ["k={}", "flag"];
    assert Join(pieces, '&') == q by {
      assert pieces[1..] == ["flag"];
    }
    SplitJoin(pieces, '&');
  }

  lemma FlagPairs(tail: seq<Bytes>, none: seq<FieldDecl>)
    requires tail == ["flag"] && none == []
    ensures CompilePairs(TupleVariant, tail, 1, none) == Success(([QuerySpec("flag", None)], none))
  {
    var flag: QuerySpec<FieldRef> := QuerySpec("flag", None);
    assert tail[0] == "flag" && '=' !in tail[0];
    assert CompilePair(TupleVariant, tail[0], 1, none) == Success((flag, 1, none));
    assert tail[1..] == [];
    assert CompilePairs(TupleVariant, [], 1, none) == Success(([], none));
    PairsCons(TupleVariant, tail, 1, none, flag, 1, none, [], none);
    assert [flag] + [] == [flag];
  }

  lemma FooTuplePairs(pieces: seq<Bytes>, fields: seq<FieldDecl>)
    requires pieces == ["k={}", "flag"] && fields == [None]
    ensures CompilePairs(TupleVariant, pieces, 0, fields) ==
      Success(([QuerySpec("k", Some(Field(TupleField, 1))), QuerySpec("flag", None)], []))
  {
    var tail: seq<Bytes> := ["flag"];
    assert pieces[1..] == tail;
    var none: seq<FieldDecl> := [];
    var k: QuerySpec<FieldRef> := QuerySpec("k", Some(Field(TupleField, 1)));
    var flag: QuerySpec<FieldRef> := QuerySpec("flag", None);
    KeyPair(pieces[0], fields);
    FlagPairs(tail, none);
    PairsCons(TupleVariant, pieces, 0, fields, k, 1, none, [flag], none);
    assert [k] + [flag] == [k, flag];
  }

  lemma FooTupleQuery(q: Bytes)
    requires q == "k={}&flag"
    ensures QuerySpecs(TupleVariant, q, [None]) ==
      Success(([QuerySpec("k", Some(Field(TupleField, 1))), QuerySpec("flag", None)], []))
  {
    FooTupleQueryPieces(q);
    FooTuplePairs(Split(q, '&'), [None]);
  }

  lemma FooTupleSplit(raw: Bytes, p: Bytes, q: Bytes)
    requires raw == "foo/{}?k={}&flag" && p == "foo/{}" && q == "k={}&flag"
    ensures raw == p + ['?'] + q && '?' !in p
  {
  }

  /**
   * `foo/{}?k={}&flag` in a two-field tuple variant: a literal and a
   * placeholder in the path, then a placeholder value and a bare key in the
   * query, the local numbers restarting at 1 in the query.
   */
  lemma FooTupleExample(raw: Bytes)
    requires raw == "foo/{}?k={}&flag"
    ensures Compiled(TupleVariant, raw, [None, None]) == Success(Template(
      [Literal("foo"), Field(TupleField, 1)],
      [QuerySpec("k", Some(Field(TupleField, 1))), QuerySpec("flag", None)]))
  {
    var p, q: Bytes := "foo/{}", "k={}&flag";
    FooTupleSplit(raw, p, q);
    SplitFirstAt(p, '?', q);
    FooTuplePath(p);
    FooTupleQuery(q);
  }

  /** A unit variant takes no placeholder at all. */
  lemma UnitPlaceholderExample(raw: Bytes)
    requires raw == "{}"
    ensures Compiled(UnitVariant, raw, []) == Failure(UnitInterpolation)
  {
    var pieces: seq<Bytes> := ["{}"];
    assert Join(pieces, '/') == raw;
    SplitJoin(pieces, '/');
    assert PathPieces(raw) == pieces;
  }

  /** A tuple variant refuses `{name}`; a named one refuses `{}`. */
  lemma WrongPlaceholderExamples(named: Bytes, positional: Bytes)
    requires named == "{x}" && positional == "{}"
    ensures Compiled(TupleVariant, named, [None]) == Failure(NamedInTuple)
    ensures Compiled(NamedVariant, positional, [Some("x")]) == Failure(PositionalInNamed)
  {
    var a: seq<Bytes> := [named];
    var b: seq<Bytes> := [positional];
    assert Join(a, '/') == named && Join(b, '/') == positional;
    SplitJoin(a, '/');
    SplitJoin(b, '/');
    assert PathPieces(named) == a && PathPieces(positional) == b;
    assert named[1..2] == "x";
  }

  /** Two placeholders and one field: too many pieces. */
  lemma TooManyPiecesExample(raw: Bytes)
    requires raw == "{}/{}"
    ensures Compiled(TupleVariant, raw, [None]) == Failure(TooManyPieces)
  {
    var pieces: seq<Bytes> := ["{}", "{}"];
    assert Join(pieces, '/') == raw by {
      assert pieces[1..] == ["{}"];
    }
    SplitJoin(pieces, '/');
    assert PathPieces(raw) == pieces;
    assert pieces[1..] == ["{}"];
    var fields: seq<FieldDecl> := [None];
    assert fields[..0] == [];
  }

  /** A named field no placeholder takes is reported by name. */
  lemma FieldsUnusedExample(raw: Bytes)
    requires raw == "/foo"
    ensures Compiled(NamedVariant, raw, [Some("x")]) == Failure(FieldsUnused(["x"]))
  {
    var pieces: seq<Bytes> := ["foo"];
    assert raw[1..] == "foo";
    assert Join(pieces, '/') == "foo";
    SplitJoin(pieces, '/');
    assert PathPieces(raw) == pieces;
    var fields: seq<FieldDecl> := [Some("x")];
    assert Names(fields) == ["x"] by {
      assert fields[1..] == [];
    }
  }

  /** `/` alone compiles to no path specs at all. */
  lemma RootExample(raw: Bytes)
    requires raw == "/"
    ensures Compiled(UnitVariant, raw, []) == Success(Template([], []))
  {
    assert raw[1..] == [];
  }

  // ---------------------------------------------------------------------------
  // The route attributes of the derive tests
  // ---------------------------------------------------------------------------

  /** `{name}` in a named variant takes the next number and pops a field. */
  lemma NamedPiece(s: Bytes, name: Bytes, counter: nat, fields: seq<FieldDecl>)
    requires s == ['{'] + name + ['}'] && name != [] && fields != []
    ensures CompileValue(NamedVariant, s, counter, fields) ==
      Success((Field(NamedField(name), counter + 1), counter + 1, fields[..|fields| - 1]))
  {
    assert s[1..|s| - 1] == name;
    assert s != "{}" by {
      assert |s| > 2;
    }
  }

  /** A path of one literal piece: that literal, the fields untouched. */
  lemma OneLiteralPath(kind: VariantKind, p: Bytes, fields: seq<FieldDecl>)
    requires p != [] && p[0] != '/' && p[0] != '{' && '/' !in p
    ensures PathSpecs(kind, p, fields) == Success(([Literal(p)], fields))
  {
    var pieces: seq<Bytes> := [p];
    SplitJoin(pieces, '/');
    assert PathPieces(p) == pieces;
    var lit: RouteValue<FieldRef> := Literal(p);
    LiteralPiece(kind, p, 0, fields);
    assert pieces[1..] == [];
    SegsCons(kind, pieces, 0, fields, lit, 0, fields, [], fields);
    assert [lit] + [] == [lit];
  }

  /** Two pieces, a literal and then the variant's only placeholder. */
  lemma LiteralFieldSegs(kind: VariantKind, pieces: seq<Bytes>, fields: seq<FieldDecl>, f: FieldRef)
    requires |pieces| == 2 && pieces[0] != [] && pieces[0][0] != '{'
    requires CompileValue(kind, pieces[1], 0, fields) == Success((Field(f, 1), 1, []))
    ensures CompileSegs(kind, pieces, 0, fields) == Success(([Literal(pieces[0]), Field(f, 1)], []))
  {
    var lit: RouteValue<FieldRef> := Literal(pieces[0]);
    var x: RouteValue<FieldRef> := Field(f, 1);
    var tail := pieces[1..];
    assert tail[0] == pieces[1] && tail[1..] == [];
    LiteralPiece(kind, pieces[0], 0, fields);
    assert CompileSegs(kind, tail[1..], 1, []) == Success(([], []));
    SegsCons(kind, tail, 0, fields, x, 1, [], [], []);
    assert [x] + [] == [x];
    SegsCons(kind, pieces, 0, fields, lit, 0, fields, [x], []);
    assert [lit] + [x] == [lit, x];
  }

  /** `style.css` in a unit variant: one literal segment. */
  lemma StyleAttribute(raw: Bytes)
    requires raw == "style.css"
    ensures Compiled(UnitVariant, raw, []) == Success(Template([Literal(raw)], []))
  {
    assert '?' !in raw;
    OneLiteralPath(UnitVariant, raw, []);
  }

  /** `hello/{name}` in a variant with the one named field `name`. */
  lemma HelloAttribute(raw: Bytes)
    requires raw == "hello/{name}"
    ensures Compiled(NamedVariant, raw, [Some("name")]) ==
      Success(Template([Literal("hello"), Field(NamedField("name"), 1)], []))
  {
    assert '?' !in raw;
    var pieces: seq<Bytes> := ["hello", "{name}"];
    HelloPieces(raw, pieces);
    HelloSegs(pieces, [Some("name")]);
  }

  lemma HelloPieces(raw: Bytes, pieces: seq<Bytes>)
    requires raw == "hello/{name}" && pieces == ["hello", "{name}"]
    ensures PathPieces(raw) == pieces
  {
    assert Join(pieces, '/') == raw by {
      assert pieces[1..] == ["{name}"];
    }
    SplitJoin(pieces, '/');
  }

  lemma HelloSegs(pieces: seq<Bytes>, fields: seq<FieldDecl>)
    requires pieces == ["hello", "{name}"] && fields == [Some("name")]
    ensures CompileSegs(NamedVariant, pieces, 0, fields) == Success(([Literal("hello"), Field(NamedField("name"), 1)], []))
  {
    NamedPiece(pieces[1], "name", 0, fields);
    assert fields[..0] == [];
    LiteralFieldSegs(NamedVariant, pieces, fields, NamedField("name"));
  }

  /** `/goodbye/{}` in a one-field tuple variant: the leading `/` is dropped. */
  lemma GoodbyeAttribute(raw: Bytes)
    requires raw == "/goodbye/{}"
    ensures Compiled(TupleVariant, raw, [None]) ==
      Success(Template([Literal("goodbye"), Field(TupleField, 1)], []))
  {
    assert '?' !in raw;
    var pieces: seq<Bytes> := ["goodbye", "{}"];
    GoodbyePieces(raw, pieces);
    GoodbyeSegs(pieces, [None]);
  }

  lemma GoodbyePieces(raw: Bytes, pieces: seq<Bytes>)
    requires raw == "/goodbye/{}" && pieces == ["goodbye", "{}"]
    ensures PathPieces(raw) == pieces
  {
    assert Join(pieces, '/') == raw[1..] by {
      assert pieces[1..] == ["{}"];
    }
    SplitJoin(pieces, '/');
  }

  lemma GoodbyeSegs(pieces: seq<Bytes>, fields: seq<FieldDecl>)
    requires pieces == ["goodbye", "{}"] && fields == [None]
    ensures CompileSegs(TupleVariant, pieces, 0, fields) == Success(([Literal("goodbye"), Field(TupleField, 1)], []))
  {
    PositionalPiece(pieces[1], 0, fields);
    assert fields[..0] == [];
    LiteralFieldSegs(TupleVariant, pieces, fields, TupleField);
  }

  /** A query without `&` is one pair, compiled from the start of the count. */
  lemma OnePairQuery(kind: VariantKind, q: Bytes, fields: seq<FieldDecl>,
                     spec: QuerySpec<FieldRef>, c: nat, left: seq<FieldDecl>)
    requires q != [] && '&' !in q
    requires CompilePair(kind, q, 0, fields) == Success((spec, c, left))
    ensures QuerySpecs(kind, q, fields) == Success(([spec], left))
  {
    var pieces := [q];
    SplitJoin(pieces, '&');
    assert Join(pieces, '&') == q;
    assert pieces[1..] == [];
    PairsCons(kind, pieces, 0, fields, spec, c, left, [], left);
    assert [spec] + [] == [spec];
  }

  /** The pair `name={name}` in a named variant: key `name`, the next placeholder as its value. */
  lemma NamedPair(name: Bytes, q: Bytes, fields: seq<FieldDecl>)
    requires name != [] && '=' !in name && fields == [Some(name)]
    requires q == name + ['='] + (['{'] + name + ['}'])
    ensures CompilePair(NamedVariant, q, 0, fields) == Success((QuerySpec(name, Some(Field(NamedField(name), 1))), 1, []))
  {
    var v := ['{'] + name + ['}'];
    SplitFirstAt(name, '=', v);
    NamedPiece(v, name, 0, fields);
    assert fields[..0] == [];
  }

  /** The query `name={name}` in a variant with the one named field `name`. */
  lemma NamedQuery(name: Bytes, q: Bytes, fields: seq<FieldDecl>)
    requires name != [] && '=' !in name && '&' !in name && fields == [Some(name)]
    requires q == name + ['='] + (['{'] + name + ['}'])
    ensures QuerySpecs(NamedVariant, q, fields) == Success(([QuerySpec(name, Some(Field(NamedField(name), 1)))], []))
  {
    NamedPair(name, q, fields);
    assert '&' !in q by {
      assert '&' !in ['{'] + name + ['}'];
    }
    OnePairQuery(NamedVariant, q, fields, QuerySpec(name, Some(Field(NamedField(name), 1))), 1, []);
  }

  /** `lit?name={name}`: one literal segment, and the key `name` taking the variant's one named field. */
  lemma LiteralNamedRoute(lit: Bytes, name: Bytes, raw: Bytes)
    requires lit != [] && lit[0] != '{' && '/' !in lit && '?' !in lit
    requires name != [] && '=' !in name && '&' !in name
    requires raw == lit + ['?'] + (name + ['='] + (['{'] + name + ['}']))
    ensures Compiled(NamedVariant, raw, [Some(name)]) ==
      Success(Template([Literal(lit)], [QuerySpec(name, Some(Field(NamedField(name), 1)))]))
  {
    var q := name + ['='] + (['{'] + name + ['}']);
    var fields := [Some(name)];
    SplitFirstAt(lit, '?', q);
    OneLiteralPath(NamedVariant, lit, fields);
    NamedQuery(name, q, fields);
  }

  /** `foo?bar={bar}`: a literal path and one placeholder value in the query. */
  lemma FooAttribute(raw: Bytes)
    requires raw == "foo?bar={bar}"
    ensures Compiled(NamedVariant, raw, [Some("bar")]) ==
      Success(Template([Literal("foo")], [QuerySpec("bar", Some(Field(NamedField("bar"), 1)))]))
  {
    var lit, name: Bytes := "foo", "bar";
    assert raw == lit + ['?'] + (name + ['='] + (['{'] + name + ['}']));
    LiteralNamedRoute(lit, name, raw);
  }
}
