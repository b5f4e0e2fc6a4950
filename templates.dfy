/**
 * The route template compiler of the derive macro: a route attribute such as
 * `foo/{x}?k={}&flag` becomes a list of path specs and a list of query specs,
 * each a literal or a placeholder, checked against the variant's shape (unit,
 * tuple or named) and against its number of fields.
 *
 * Placeholders take the variant's fields in order: each one pops a field off
 * the end of the field list, and the fields left over at the end are an
 * error. Every placeholder gets a fresh local name, numbered from 1 within
 * the path and, separately, within the query.
 */
module Templates {
  import opened Wrappers
  import opened Text

  /** How the variant declares its fields. */
  datatype VariantKind = UnitVariant | TupleVariant | NamedVariant

  /** A declared field of the variant: its name, or `None` for a tuple field. */
  type FieldDecl = Option<Bytes>

  /** `RouteValueRaw`: one piece of the route attribute, before the variant is consulted. */
  datatype RawValue = RawLiteral(text: Bytes) | Positional | NamedRaw(name: Bytes)

  /** The compile errors, one per message of the macro. */
  datatype CompileError =
    | InvalidRouteValue(raw: Bytes)    // starts with `{` but does not end with `}`
    | UnitInterpolation                // any placeholder in a unit variant
    | NamedInTuple                     // `{name}` in a tuple variant
    | PositionalInNamed                // `{}` in a named variant
    | TooManyPieces                    // more placeholders than fields
    | EmptyQuery                       // a `?` with nothing after it
    | FieldsUnused(names: seq<Bytes>)  // fields no placeholder took, by name

  /** What a placeholder stands for: the next tuple field, or a named field. Unit variants have neither. */
  datatype FieldRef = TupleField | NamedField(name: Bytes)

  /** A path segment or query value of a template: fixed text, or a field with its local name's number. */
  datatype RouteValue<F> = Literal(text: Bytes) | Field(field: F, local: nat)

  /** A query spec: a literal key, and no value (no `=`), or a value. */
  datatype QuerySpec<F> = QuerySpec(key: Bytes, value: Option<RouteValue<F>>)

  /** `PathAndQuery`: the compiled template of one variant. */
  datatype Template<F> = Template(path: seq<RouteValue<F>>, query: seq<QuerySpec<F>>)

  // ---------------------------------------------------------------------------
  // The fields a template refers to, in order
  // ---------------------------------------------------------------------------

  function Fields<F>(vs: seq<RouteValue<F>>): seq<F>
  {
    if vs == [] then [] else (if vs[0].Field? then [vs[0].field] else []) + Fields(vs[1..])
  }

  /** Whether a query spec has a placeholder value. */
  predicate Takes<F>(q: QuerySpec<F>)
  {
    q.value.Some? && q.value.value.Field?
  }

  function QueryFields<F>(qs: seq<QuerySpec<F>>): seq<F>
  {
    if qs == [] then []
    else (if Takes(qs[0]) then [qs[0].value.value.field] else []) + QueryFields(qs[1..])
  }

  /** The placeholders of a template, path first, in the order they take the variant's fields. */
  function TemplateFields<F>(t: Template<F>): seq<F>
  {
    Fields(t.path) + QueryFields(t.query)
  }

  /** Cutting a sequence and gluing the halves back gives it again. */
  lemma TakeDrop<T>(s: seq<T>, n: nat)
    requires n <= |s|
    ensures s[..n] + s[n..] == s
  {
  }

  lemma {:induction false} FieldsAppend<F>(a: seq<RouteValue<F>>, b: seq<RouteValue<F>>)
    ensures Fields(a + b) == Fields(a) + Fields(b)
  {
    if a != [] {
      assert (a + b)[1..] == a[1..] + b;
      FieldsAppend(a[1..], b);
    } else {
      assert a + b == b;
    }
  }

  lemma {:induction false} QueryFieldsAppend<F>(a: seq<QuerySpec<F>>, b: seq<QuerySpec<F>>)
    ensures QueryFields(a + b) == QueryFields(a) + QueryFields(b)
  {
    if a != [] {
      assert (a + b)[1..] == a[1..] + b;
      QueryFieldsAppend(a[1..], b);
    } else {
      assert a + b == b;
    }
  }

  // ---------------------------------------------------------------------------
  // One piece
  // ---------------------------------------------------------------------------

  /**
   * `RouteValueRaw::from_str`: `{}` is positional, `{name}` named, text that
   * opens with `{` without closing it an error, and anything else (`a}` too)
   * a literal.
   */
  function ParseRawValue(s: Bytes): (r: Result<RawValue, CompileError>)
    ensures s == "{}" ==> r == Success(Positional)
    ensures r == Success(RawLiteral(s)) <==> |s| == 0 || s[0] != '{'
    ensures r.Failure? <==> |s| > 0 && s[0] == '{' && s[|s| - 1] != '}'
    ensures r.Failure? ==> r.error == InvalidRouteValue(s)
    ensures r.Success? && r.value.NamedRaw? ==> s == ['{'] + r.value.name + ['}'] && s != "{}"
  {
    if s == "{}" then Success(Positional)
    else if |s| == 0 || s[0] != '{' then Success(RawLiteral(s))
    else if s[|s| - 1] == '}' then
      assert s == ['{'] + s[1..|s| - 1] + ['}'];
      Success(NamedRaw(s[1..|s| - 1]))
    else Failure(InvalidRouteValue(s))
  }

  /** `AsField::from_positional`: only a tuple variant accepts `{}`. */
  function FromPositional(kind: VariantKind): (r: Result<FieldRef, CompileError>)
    ensures r.Success? <==> kind == TupleVariant
    ensures r.Success? ==> r.value == TupleField
  {
    match kind
    case UnitVariant => Failure(UnitInterpolation)
    case TupleVariant => Success(TupleField)
    case NamedVariant => Failure(PositionalInNamed)
  }

  /** `AsField::from_named`: only a named variant accepts `{name}`. */
  function FromNamed(kind: VariantKind, name: Bytes): (r: Result<FieldRef, CompileError>)
    ensures r.Success? <==> kind == NamedVariant
    ensures r.Success? ==> r.value == NamedField(name)
  {
    match kind
    case UnitVariant => Failure(UnitInterpolation)
    case TupleVariant => Failure(NamedInTuple)
    case NamedVariant => Success(NamedField(name))
  }

  /** The field refs a variant kind admits: none for unit, `TupleField` for tuple, named ones for named. */
  predicate Admits(kind: VariantKind, f: FieldRef)
  {
    match kind
    case UnitVariant => false
    case TupleVariant => f == TupleField
    case NamedVariant => f.NamedField?
  }

  /**
   * `RouteValue::parse`: a literal leaves the counter alone; a placeholder the
   * variant admits takes the next number.
   */
  function ParseValue(kind: VariantKind, raw: Bytes, counter: nat): (r: Result<(RouteValue<FieldRef>, nat), CompileError>)
    ensures r.Success? && r.value.0.Literal? ==> r.value.1 == counter && r.value.0 == Literal(raw)
    ensures r.Success? && r.value.0.Field? ==> r.value.1 == counter + 1 == r.value.0.local && Admits(kind, r.value.0.field)
  {
    match ParseRawValue(raw)
    case Failure(e) => Failure(e)
    case Success(RawLiteral(l)) => Success((Literal(l), counter))
    case Success(Positional) => NextField(FromPositional(kind), counter)
    case Success(NamedRaw(n)) => NextField(FromNamed(kind, n), counter)
  }

  /** An admitted placeholder, with the next local number (`next_ident`). */
  function NextField(f: Result<FieldRef, CompileError>, counter: nat): Result<(RouteValue<FieldRef>, nat), CompileError>
  {
    match f
    case Failure(e) => Failure(e)
    case Success(field) => Success((Field(field, counter + 1), counter + 1))
  }

  /** `RouteValue::remove_field`: a placeholder pops one field, and there must be one to pop. */
  function RemoveField<F>(v: RouteValue<F>, fields: seq<FieldDecl>): (r: Result<seq<FieldDecl>, CompileError>)
    ensures v.Literal? ==> r == Success(fields)
    ensures v.Field? ==> (r.Success? <==> fields != [])
    ensures v.Field? && r.Success? ==> r.value == fields[..|fields| - 1]
    ensures r.Failure? ==> r.error == TooManyPieces
  {
    match v
    case Literal(_) => Success(fields)
    case Field(_, _) => if fields == [] then Failure(TooManyPieces) else Success(fields[..|fields| - 1])
  }

  /** One piece through `RouteValue::parse` and `remove_field`: the value, the new counter and the fields left. */
  function CompileValue(kind: VariantKind, raw: Bytes, counter: nat, fields: seq<FieldDecl>)
    : (r: Result<(RouteValue<FieldRef>, nat, seq<FieldDecl>), CompileError>)
    ensures r.Success? ==> Denotes(kind, raw, r.value.0)
    ensures r.Success? && r.value.0.Literal? ==> r.value.1 == counter && r.value.2 == fields
    ensures r.Success? && r.value.0.Field? ==>
      r.value.1 == counter + 1 == r.value.0.local && fields != [] && r.value.2 == fields[..|fields| - 1]
  {
    match ParseValue(kind, raw, counter)
    case Failure(e) => Failure(e)
    case Success((v, c)) =>
      match RemoveField(v, fields)
      case Failure(e) => Failure(e)
      case Success(rest) => Success((v, c, rest))
  }

  /** A value is what the piece `raw` denotes for this variant kind, whatever its local number. */
  predicate Denotes(kind: VariantKind, raw: Bytes, v: RouteValue<FieldRef>)
  {
    match ParseRawValue(raw)
    case Failure(_) => false
    case Success(RawLiteral(l)) => v == Literal(l)
    case Success(Positional) => v.Field? && FromPositional(kind) == Success(v.field)
    case Success(NamedRaw(n)) => v.Field? && FromNamed(kind, n) == Success(v.field)
  }

  // ---------------------------------------------------------------------------
  // Many pieces: `parse_path_fields` and `parse_query_fields`
  // ---------------------------------------------------------------------------

  /** The compiled values of `pieces`, in order, with the fields left; the first error wins. */
  function CompileSegs(kind: VariantKind, pieces: seq<Bytes>, counter: nat, fields: seq<FieldDecl>)
    : Result<(seq<RouteValue<FieldRef>>, seq<FieldDecl>), CompileError>
    decreases |pieces|
  {
    if pieces == [] then Success(([], fields))
    else
      match CompileValue(kind, pieces[0], counter, fields)
      case Failure(e) => Failure(e)
      case Success((v, c, rest)) =>
        match CompileSegs(kind, pieces[1..], c, rest)
        case Failure(e) => Failure(e)
        case Success((vs, left)) => Success(([v] + vs, left))
  }

  /** One query piece: a key alone when it has no `=`, otherwise the key before the first `=` and a compiled value. */
  function CompilePair(kind: VariantKind, raw: Bytes, counter: nat, fields: seq<FieldDecl>)
    : (r: Result<(QuerySpec<FieldRef>, nat, seq<FieldDecl>), CompileError>)
    ensures '=' !in raw ==> r == Success((QuerySpec(raw, None), counter, fields))
    ensures r.Success? && '=' in raw ==>
      var (k, v) := SplitFirst(raw, '=').value;
      r.value.0.key == k && r.value.0.value.Some? && Denotes(kind, v, r.value.0.value.value)
    ensures r.Success? && Takes(r.value.0) ==>
      r.value.1 == counter + 1 == r.value.0.value.value.local && fields != [] && r.value.2 == fields[..|fields| - 1]
    ensures r.Success? && !Takes(r.value.0) ==> r.value.1 == counter && r.value.2 == fields
  {
    match SplitFirst(raw, '=')
    case None => Success((QuerySpec(raw, None), counter, fields))
    case Some((k, v)) =>
      match CompileValue(kind, v, counter, fields)
      case Failure(e) => Failure(e)
      case Success((value, c, rest)) => Success((QuerySpec(k, Some(value)), c, rest))
  }

  function CompilePairs(kind: VariantKind, pieces: seq<Bytes>, counter: nat, fields: seq<FieldDecl>)
    : Result<(seq<QuerySpec<FieldRef>>, seq<FieldDecl>), CompileError>
    decreases |pieces|
  {
    if pieces == [] then Success(([], fields))
    else
      match CompilePair(kind, pieces[0], counter, fields)
      case Failure(e) => Failure(e)
      case Success((q, c, rest)) =>
        match CompilePairs(kind, pieces[1..], c, rest)
        case Failure(e) => Failure(e)
        case Success((qs, left)) => Success(([q] + qs, left))
  }

  /** The pieces of the path part: after one optional leading `/`, none for nothing, else the `/`-separated ones. */
  function PathPieces(rawPath: Bytes): seq<Bytes>
  {
    var stripped := if |rawPath| > 0 && rawPath[0] == '/' then rawPath[1..] else rawPath;
    if stripped == [] then [] else Split(stripped, '/')
  }

  /** The result of `parse_path_fields`. */
  function PathSpecs(kind: VariantKind, rawPath: Bytes, fields: seq<FieldDecl>)
    : Result<(seq<RouteValue<FieldRef>>, seq<FieldDecl>), CompileError>
  {
    CompileSegs(kind, PathPieces(rawPath), 0, fields)
  }

  /** The result of `parse_query_fields`: an empty query is an error, otherwise one spec per `&`-piece. */
  function QuerySpecs(kind: VariantKind, rawQuery: Bytes, fields: seq<FieldDecl>)
    : (r: Result<(seq<QuerySpec<FieldRef>>, seq<FieldDecl>), CompileError>)
    ensures rawQuery == [] ==> r == Failure(EmptyQuery)
  {
    if rawQuery == [] then Failure(EmptyQuery)
    else CompilePairs(kind, Split(rawQuery, '&'), 0, fields)
  }

  /** The names of the named fields in a list. */
  function Names(fields: seq<FieldDecl>): seq<Bytes>
  {
    if fields == [] then []
    else (if fields[0].Some? then [fields[0].value] else []) + Names(fields[1..])
  }

  /** `require_fields_used`: no field may be left over. */
  function RequireFieldsUsed(fields: seq<FieldDecl>): (r: Result<(), CompileError>)
    ensures r.Success? <==> fields == []
  {
    if fields == [] then Success(()) else Failure(FieldsUnused(Names(fields)))
  }

  /** The template, once no field is left over. */
  function Finish(path: seq<RouteValue<FieldRef>>, query: seq<QuerySpec<FieldRef>>, left: seq<FieldDecl>)
    : Result<Template<FieldRef>, CompileError>
  {
    match RequireFieldsUsed(left)
    case Failure(e) => Failure(e)
    case Success(_) => Success(Template(path, query))
  }

  /** The path part, then the query part if there was a `?`, compiled in turn against the same field list. */
  function CompileParts(kind: VariantKind, p: Bytes, q: Option<Bytes>, fields: seq<FieldDecl>)
    : Result<Template<FieldRef>, CompileError>
  {
    match PathSpecs(kind, p, fields)
    case Failure(e) => Failure(e)
    case Success((path, rest)) =>
      if q.None? then Finish(path, [], rest)
      else
        match QuerySpecs(kind, q.value, rest)
        case Failure(e) => Failure(e)
        case Success((query, left)) => Finish(path, query, left)
  }

  /** The result of `PathAndQuery::parse`: the route split at its first `?`, path then query, then the leftover check. */
  function Compiled(kind: VariantKind, raw: Bytes, fields: seq<FieldDecl>): Result<Template<FieldRef>, CompileError>
  {
    match SplitFirst(raw, '?')
    case None => CompileParts(kind, raw, None, fields)
    case Some((p, q)) => CompileParts(kind, p, Some(q), fields)
  }

  // ---------------------------------------------------------------------------
  // The compiler, step by step
  // ---------------------------------------------------------------------------

  /** `acc` in front of a successful result. */
  function Prefixed<T>(acc: seq<T>, r: Result<(seq<T>, seq<FieldDecl>), CompileError>)
    : Result<(seq<T>, seq<FieldDecl>), CompileError>
  {
    match r
    case Failure(e) => Failure(e)
    case Success((vs, rest)) => Success((acc + vs, rest))
  }

  lemma PrefixedNil<T>(r: Result<(seq<T>, seq<FieldDecl>), CompileError>)
    ensures Prefixed([], r) == r
  {
    if r.Success? {
      assert [] + r.value.0 == r.value.0;
    }
  }

  lemma PrefixedAppend<T>(acc: seq<T>, b: seq<T>, r: Result<(seq<T>, seq<FieldDecl>), CompileError>)
    ensures Prefixed(acc, Prefixed(b, r)) == Prefixed(acc + b, r)
  {
    if r.Success? {
      assert acc + (b + r.value.0) == acc + b + r.value.0;
    }
  }

  /** One step of `CompileSegs`. */
  lemma SegsStep(kind: VariantKind, pieces: seq<Bytes>, counter: nat, fields: seq<FieldDecl>)
    requires pieces != []
    ensures CompileSegs(kind, pieces, counter, fields) ==
      match CompileValue(kind, pieces[0], counter, fields)
      case Failure(e) => Failure(e)
      case Success((v, c, rest)) => Prefixed([v], CompileSegs(kind, pieces[1..], c, rest))
  {
  }

  /** One step of `CompilePairs`. */
  lemma PairsStep(kind: VariantKind, pieces: seq<Bytes>, counter: nat, fields: seq<FieldDecl>)
    requires pieces != []
    ensures CompilePairs(kind, pieces, counter, fields) ==
      match CompilePair(kind, pieces[0], counter, fields)
      case Failure(e) => Failure(e)
      case Success((q, c, rest)) => Prefixed([q], CompilePairs(kind, pieces[1..], c, rest))
  {
  }
  lemma SegsStepTo(kind: VariantKind, pieces: seq<Bytes>, counter: nat, fields: seq<FieldDecl>, v: RouteValue<FieldRef>, c: nat, rest: seq<FieldDecl>)
    requires pieces != [] && CompileValue(kind, pieces[0], counter, fields) == Success((v, c, rest))
    ensures CompileSegs(kind, pieces, counter, fields) == Prefixed([v], CompileSegs(kind, pieces[1..], c, rest))
  {
  }

  lemma PairsStepTo(kind: VariantKind, pieces: seq<Bytes>, counter: nat, fields: seq<FieldDecl>, q: QuerySpec<FieldRef>, c: nat, rest: seq<FieldDecl>)
    requires pieces != [] && CompilePair(kind, pieces[0], counter, fields) == Success((q, c, rest))
    ensures CompilePairs(kind, pieces, counter, fields) == Prefixed([q], CompilePairs(kind, pieces[1..], c, rest))
  {
  }


  /**
   * `parse_path_fields`: strip one `/`, split on `/`, and compile the pieces
   * in order, bumping the counter and popping the fields as it goes.
   */
  method ParsePathFields(kind: VariantKind, rawPath: Bytes, fields: seq<FieldDecl>)
    returns (r: Result<(seq<RouteValue<FieldRef>>, seq<FieldDecl>), CompileError>)
    ensures r == PathSpecs(kind, rawPath, fields)
  {
    var stripped := if |rawPath| > 0 && rawPath[0] == '/' then rawPath[1..] else rawPath;
    if stripped == [] {
      return Success(([], fields));
    }
    var pieces := Split(stripped, '/');
    var counter := 0;
    var remaining := fields;
    var segs := [];
    assert pieces[0..] == pieces && PathPieces(rawPath) == pieces;
    PrefixedNil(PathSpecs(kind, rawPath, fields));
    for i := 0 to |pieces|
      invariant PathSpecs(kind, rawPath, fields) == Prefixed(segs, CompileSegs(kind, pieces[i..], counter, remaining))
    {
      assert pieces[i..][0] == pieces[i] && pieces[i..][1..] == pieces[i + 1..];
      SegsStep(kind, pieces[i..], counter, remaining);
      var parsed := ParseValue(kind, pieces[i], counter);
      if parsed.Failure? {
        return Failure(parsed.error);
      }
      var (v, next) := parsed.value;
      counter := next;
      var popped := RemoveField(v, remaining);
      if popped.Failure? {
        return Failure(popped.error);
      }
      PrefixedAppend(segs, [v], CompileSegs(kind, pieces[i + 1..], counter, popped.value));
      remaining := popped.value;
      segs := segs + [v];
    }
    assert pieces[|pieces|..] == [] && segs + [] == segs;
    r := Success((segs, remaining));
  }

  /**
   * `parse_query_fields`: refuse an empty query, split on `&`, and compile each
   * piece: a bare key, or a key and a value split at the first `=`.
   */
  method ParseQueryFields(kind: VariantKind, rawQuery: Bytes, fields: seq<FieldDecl>)
    returns (r: Result<(seq<QuerySpec<FieldRef>>, seq<FieldDecl>), CompileError>)
    ensures r == QuerySpecs(kind, rawQuery, fields)
  {
    if rawQuery == [] {
      return Failure(EmptyQuery);
    }
    var pieces := Split(rawQuery, '&');
    var counter := 0;
    var remaining := fields;
    var specs := [];
    assert pieces[0..] == pieces;
    PrefixedNil(QuerySpecs(kind, rawQuery, fields));
    for i := 0 to |pieces|
      invariant QuerySpecs(kind, rawQuery, fields) == Prefixed(specs, CompilePairs(kind, pieces[i..], counter, remaining))
    {
      assert pieces[i..][0] == pieces[i] && pieces[i..][1..] == pieces[i + 1..];
      PairsStep(kind, pieces[i..], counter, remaining);
      match SplitFirst(pieces[i], '=')
      case None =>
        PrefixedAppend(specs, [QuerySpec(pieces[i], None)], CompilePairs(kind, pieces[i + 1..], counter, remaining));
        specs := specs + [QuerySpec(pieces[i], None)];
      case Some((key, value)) =>
        var parsed := ParseValue(kind, value, counter);
        if parsed.Failure? {
          return Failure(parsed.error);
        }
        var (v, next) := parsed.value;
        counter := next;
        var popped := RemoveField(v, remaining);
        if popped.Failure? {
          return Failure(popped.error);
        }
        PrefixedAppend(specs, [QuerySpec(key, Some(v))], CompilePairs(kind, pieces[i + 1..], counter, popped.value));
        remaining := popped.value;
        specs := specs + [QuerySpec(key, Some(v))];
    }
    assert pieces[|pieces|..] == [] && specs + [] == specs;
    r := Success((specs, remaining));
  }

  /** `PathAndQuery::parse`: split at the first `?`, compile the path, then the query, then check every field was used. */
  method ParseTemplate(kind: VariantKind, raw: Bytes, fields: seq<FieldDecl>)
    returns (r: Result<Template<FieldRef>, CompileError>)
    ensures r == Compiled(kind, raw, fields)
  {
    match IndexOf(raw, '?')
    case None =>
      var path := ParsePathFields(kind, raw, fields);
      if path.Failure? {
        return Failure(path.error);
      }
      var used := RequireFieldsUsed(path.value.1);
      if used.Failure? {
        return Failure(used.error);
      }
      r := Success(Template(path.value.0, []));
    case Some(idx) =>
      var path := ParsePathFields(kind, raw[..idx], fields);
      if path.Failure? {
        return Failure(path.error);
      }
      var query := ParseQueryFields(kind, raw[idx + 1..], path.value.1);
      if query.Failure? {
        return Failure(query.error);
      }
      var used := RequireFieldsUsed(query.value.1);
      if used.Failure? {
        return Failure(used.error);
      }
      r := Success(Template(path.value.0, query.value.0));
  }

  // ---------------------------------------------------------------------------
  // Properties
  // ---------------------------------------------------------------------------

  /**
   * A compiled path has one spec per piece, each the one its piece denotes;
   * placeholders are numbered 1, 2, ... in order from the starting counter, and
   * each pops one field off the end.
   */
  lemma {:induction false} SegsShape(kind: VariantKind, pieces: seq<Bytes>, counter: nat, fields: seq<FieldDecl>)
    requires CompileSegs(kind, pieces, counter, fields).Success?
    ensures var (vs, rest) := CompileSegs(kind, pieces, counter, fields).value;
      && |vs| == |pieces|
      && (forall i | 0 <= i < |vs| :: Denotes(kind, pieces[i], vs[i]))
      && (forall i | 0 <= i < |vs| && vs[i].Field? :: vs[i].local == counter + |Fields(vs[..i])| + 1)
      && |Fields(vs)| <= |fields| && rest == fields[..|fields| - |Fields(vs)|]
  {
    SegsCount(kind, pieces, counter, fields);
    SegsEach(kind, pieces, counter, fields);
    SegsLocals(kind, pieces, counter, fields);
  }

  /** A successful path compilation, one piece at a time. */
  lemma SegsCons(kind: VariantKind, pieces: seq<Bytes>, counter: nat, fields: seq<FieldDecl>)
    requires CompileSegs(kind, pieces, counter, fields).Success? && pieces != []
    ensures CompileValue(kind, pieces[0], counter, fields).Success?
    ensures var (v, c, rest1) := CompileValue(kind, pieces[0], counter, fields).value;
      && CompileSegs(kind, pieces[1..], c, rest1).Success?
      && var (tail, rest) := CompileSegs(kind, pieces[1..], c, rest1).value;
      CompileSegs(kind, pieces, counter, fields).value == ([v] + tail, rest)
  {
  }

  lemma {:induction false} SegsCount(kind: VariantKind, pieces: seq<Bytes>, counter: nat, fields: seq<FieldDecl>)
    requires CompileSegs(kind, pieces, counter, fields).Success?
    ensures var (vs, rest) := CompileSegs(kind, pieces, counter, fields).value;
      |vs| == |pieces| && |Fields(vs)| <= |fields| && rest == fields[..|fields| - |Fields(vs)|]
    decreases |pieces|
  {
    if pieces != [] {
      SegsCons(kind, pieces, counter, fields);
      var (v, c, rest1) := CompileValue(kind, pieces[0], counter, fields).value;
      SegsCount(kind, pieces[1..], c, rest1);
      var (tail, rest) := CompileSegs(kind, pieces[1..], c, rest1).value;
      assert ([v] + tail)[1..] == tail;
    }
  }

  lemma {:induction false} SegsEach(kind: VariantKind, pieces: seq<Bytes>, counter: nat, fields: seq<FieldDecl>)
    requires CompileSegs(kind, pieces, counter, fields).Success?
    ensures var vs := CompileSegs(kind, pieces, counter, fields).value.0;
      |vs| == |pieces| && forall i | 0 <= i < |vs| :: Denotes(kind, pieces[i], vs[i])
    decreases |pieces|
  {
    if pieces != [] {
      SegsCons(kind, pieces, counter, fields);
      var (v, c, rest1) := CompileValue(kind, pieces[0], counter, fields).value;
      SegsEach(kind, pieces[1..], c, rest1);
      var tail := CompileSegs(kind, pieces[1..], c, rest1).value.0;
      var vs := [v] + tail;
      forall i | 0 <= i < |vs| ensures Denotes(kind, pieces[i], vs[i]) {
        if i > 0 {
          assert vs[i] == tail[i - 1] && pieces[i] == pieces[1..][i - 1];
        }
      }
    }
  }

  lemma {:induction false} SegsLocals(kind: VariantKind, pieces: seq<Bytes>, counter: nat, fields: seq<FieldDecl>)
    requires CompileSegs(kind, pieces, counter, fields).Success?
    ensures var vs := CompileSegs(kind, pieces, counter, fields).value.0;
      forall i | 0 <= i < |vs| && vs[i].Field? :: vs[i].local == counter + |Fields(vs[..i])| + 1
    decreases |pieces|
  {
    if pieces != [] {
      SegsCons(kind, pieces, counter, fields);
      var (v, c, rest1) := CompileValue(kind, pieces[0], counter, fields).value;
      SegsLocals(kind, pieces[1..], c, rest1);
      var tail := CompileSegs(kind, pieces[1..], c, rest1).value.0;
      var vs := [v] + tail;
      forall i | 0 <= i < |vs| && vs[i].Field?
        ensures vs[i].local == counter + |Fields(vs[..i])| + 1
      {
        if i > 0 {
          assert vs[i] == tail[i - 1];
          assert vs[..i][1..] == tail[..i - 1];
          assert Fields(vs[..i]) == (if v.Field? then [v.field] else []) + Fields(tail[..i - 1]);
        } else {
          assert vs[..0] == [];
        }
      }
    }
  }

  /** The same for the query: a bare key for a piece without `=`, otherwise the key before the first `=` and the value after it. */
  lemma PairsShape(kind: VariantKind, pieces: seq<Bytes>, counter: nat, fields: seq<FieldDecl>)
    requires CompilePairs(kind, pieces, counter, fields).Success?
    ensures var (qs, rest) := CompilePairs(kind, pieces, counter, fields).value;
      && |qs| == |pieces|
      && (forall i | 0 <= i < |qs| && '=' !in pieces[i] :: qs[i] == QuerySpec(pieces[i], None))
      && (forall i | 0 <= i < |qs| && '=' in pieces[i] ::
            var (k, v) := SplitFirst(pieces[i], '=').value;
            qs[i].key == k && qs[i].value.Some? && Denotes(kind, v, qs[i].value.value))
      && (forall i | 0 <= i < |qs| && Takes(qs[i]) ::
            qs[i].value.value.local == counter + |QueryFields(qs[..i])| + 1)
      && |QueryFields(qs)| <= |fields| && rest == fields[..|fields| - |QueryFields(qs)|]
  {
    PairsCount(kind, pieces, counter, fields);
    PairsEach(kind, pieces, counter, fields);
    PairsLocals(kind, pieces, counter, fields);
  }

  /** A successful query compilation, one piece at a time. */
  lemma PairsCons(kind: VariantKind, pieces: seq<Bytes>, counter: nat, fields: seq<FieldDecl>)
    requires CompilePairs(kind, pieces, counter, fields).Success? && pieces != []
    ensures CompilePair(kind, pieces[0], counter, fields).Success?
    ensures var (q, c, rest1) := CompilePair(kind, pieces[0], counter, fields).value;
      && CompilePairs(kind, pieces[1..], c, rest1).Success?
      && var (tail, rest) := CompilePairs(kind, pieces[1..], c, rest1).value;
      CompilePairs(kind, pieces, counter, fields).value == ([q] + tail, rest)
  {
  }

  lemma {:induction false} PairsCount(kind: VariantKind, pieces: seq<Bytes>, counter: nat, fields: seq<FieldDecl>)
    requires CompilePairs(kind, pieces, counter, fields).Success?
    ensures var (qs, rest) := CompilePairs(kind, pieces, counter, fields).value;
      |qs| == |pieces| && |QueryFields(qs)| <= |fields| && rest == fields[..|fields| - |QueryFields(qs)|]
    decreases |pieces|
  {
    if pieces != [] {
      PairsCons(kind, pieces, counter, fields);
      var (q, c, rest1) := CompilePair(kind, pieces[0], counter, fields).value;
      PairsCount(kind, pieces[1..], c, rest1);
      var (tail, rest) := CompilePairs(kind, pieces[1..], c, rest1).value;
      assert ([q] + tail)[1..] == tail;
    }
  }

  lemma {:induction false} PairsEach(kind: VariantKind, pieces: seq<Bytes>, counter: nat, fields: seq<FieldDecl>)
    requires CompilePairs(kind, pieces, counter, fields).Success?
    ensures var qs := CompilePairs(kind, pieces, counter, fields).value.0;
      && |qs| == |pieces|
      && (forall i | 0 <= i < |qs| && '=' !in pieces[i] :: qs[i] == QuerySpec(pieces[i], None))
      && (forall i | 0 <= i < |qs| && '=' in pieces[i] ::
            var (k, v) := SplitFirst(pieces[i], '=').value;
            qs[i].key == k && qs[i].value.Some? && Denotes(kind, v, qs[i].value.value))
    decreases |pieces|
  {
    if pieces != [] {
      PairsCons(kind, pieces, counter, fields);
      var (q, c, rest1) := CompilePair(kind, pieces[0], counter, fields).value;
      PairsEach(kind, pieces[1..], c, rest1);
      var tail := CompilePairs(kind, pieces[1..], c, rest1).value.0;
      var qs := [q] + tail;
      forall i | 0 <= i < |qs| ensures qs[i] == if i == 0 then q else tail[i - 1] {}
      forall i | 1 <= i < |qs| ensures pieces[i] == pieces[1..][i - 1] {}
    }
  }

  lemma {:induction false} PairsLocals(kind: VariantKind, pieces: seq<Bytes>, counter: nat, fields: seq<FieldDecl>)
    requires CompilePairs(kind, pieces, counter, fields).Success?
    ensures var qs := CompilePairs(kind, pieces, counter, fields).value.0;
      forall i | 0 <= i < |qs| && Takes(qs[i]) :: qs[i].value.value.local == counter + |QueryFields(qs[..i])| + 1
    decreases |pieces|
  {
    if pieces != [] {
      PairsCons(kind, pieces, counter, fields);
      var (q, c, rest1) := CompilePair(kind, pieces[0], counter, fields).value;
      PairsLocals(kind, pieces[1..], c, rest1);
      var tail := CompilePairs(kind, pieces[1..], c, rest1).value.0;
      var qs := [q] + tail;
      forall i | 0 <= i < |qs| && Takes(qs[i])
        ensures qs[i].value.value.local == counter + |QueryFields(qs[..i])| + 1
      {
        if i > 0 {
          assert qs[i] == tail[i - 1];
          assert qs[..i][1..] == tail[..i - 1];
          assert QueryFields(qs[..i]) == (if Takes(q) then [q.value.value.field] else []) + QueryFields(tail[..i - 1]);
        } else {
          assert qs[..0] == [];
        }
      }
    }
  }


  /**
   * The path compiles the same whatever the fields, as long as there are
   * enough of them to pop: only their number matters.
   */
  lemma {:induction false} SegsFieldCount(kind: VariantKind, pieces: seq<Bytes>, counter: nat, fields: seq<FieldDecl>, other: seq<FieldDecl>)
    requires CompileSegs(kind, pieces, counter, fields).Success?
    ensures var vs := CompileSegs(kind, pieces, counter, fields).value.0;
      |other| < |Fields(vs)| ==> CompileSegs(kind, pieces, counter, other) == Failure(TooManyPieces)
    ensures var vs := CompileSegs(kind, pieces, counter, fields).value.0;
      |other| >= |Fields(vs)| ==> CompileSegs(kind, pieces, counter, other) == Success((vs, other[..|other| - |Fields(vs)|]))
    decreases |pieces|, 2
  {
    if pieces != [] {
      SegsFieldCountStep(kind, pieces, counter, fields, other);
    } else {
      assert other[..|other|] == other;
    }
  }

  /** The inductive step of `SegsFieldCount`. */
  lemma {:induction false} SegsFieldCountStep(kind: VariantKind, pieces: seq<Bytes>, counter: nat, fields: seq<FieldDecl>, other: seq<FieldDecl>)
    requires CompileSegs(kind, pieces, counter, fields).Success? && pieces != []
    ensures var vs := CompileSegs(kind, pieces, counter, fields).value.0;
      |other| < |Fields(vs)| ==> CompileSegs(kind, pieces, counter, other) == Failure(TooManyPieces)
    ensures var vs := CompileSegs(kind, pieces, counter, fields).value.0;
      |other| >= |Fields(vs)| ==> CompileSegs(kind, pieces, counter, other) == Success((vs, other[..|other| - |Fields(vs)|]))
    decreases |pieces|, 1
  {
    SegsCons(kind, pieces, counter, fields);
    var (v, c, rest1) := CompileValue(kind, pieces[0], counter, fields).value;
    var whole := CompileSegs(kind, pieces, counter, fields);
    var tail := CompileSegs(kind, pieces[1..], c, rest1).value.0;
    assert whole.value.0 == [v] + tail;
    ValueFieldCount(kind, pieces[0], counter, fields, other);
    if v.Field? && other == [] {
      SegsStep(kind, pieces, counter, other);
      assert ([v] + tail)[1..] == tail;
    } else {
      var restOther := if v.Field? then other[..|other| - 1] else other;
      SegsStepTo(kind, pieces, counter, other, v, c, restOther);
      SegsFieldCountRest(kind, pieces, counter, other, v, c, rest1, restOther, tail);
    }
  }

  lemma {:induction false} SegsFieldCountRest(kind: VariantKind, pieces: seq<Bytes>, counter: nat, other: seq<FieldDecl>,
                                              v: RouteValue<FieldRef>, c: nat, rest1: seq<FieldDecl>, restOther: seq<FieldDecl>,
                                              tail: seq<RouteValue<FieldRef>>)
    requires pieces != [] && CompileSegs(kind, pieces[1..], c, rest1).Success?
    requires tail == CompileSegs(kind, pieces[1..], c, rest1).value.0
    requires CompileSegs(kind, pieces, counter, other) == Prefixed([v], CompileSegs(kind, pieces[1..], c, restOther))
    requires v.Field? ==> other != []
    requires restOther == if v.Field? then other[..|other| - 1] else other
    ensures |other| < |Fields([v] + tail)| ==> CompileSegs(kind, pieces, counter, other) == Failure(TooManyPieces)
    ensures |other| >= |Fields([v] + tail)| ==>
      CompileSegs(kind, pieces, counter, other) == Success(([v] + tail, other[..|other| - |Fields([v] + tail)|]))
    decreases |pieces|, 0
  {
    var whole := CompileSegs(kind, pieces, counter, other);
    var rest := CompileSegs(kind, pieces[1..], c, restOther);
    assert && (|restOther| < |Fields(tail)| ==> rest == Failure(TooManyPieces))
           && (|restOther| >= |Fields(tail)| ==> rest == Success((tail, restOther[..|restOther| - |Fields(tail)|]))) by {
      SegsFieldCount(kind, pieces[1..], c, rest1, restOther);
    }
    RecountSegsCons(v, tail, other, restOther, whole, rest);
  }

  /** The inductive step of `SegsFieldCount`, over the results alone. */
  lemma RecountSegsCons(v: RouteValue<FieldRef>, tail: seq<RouteValue<FieldRef>>, other: seq<FieldDecl>, restOther: seq<FieldDecl>,
                        whole: Result<(seq<RouteValue<FieldRef>>, seq<FieldDecl>), CompileError>,
                        rest: Result<(seq<RouteValue<FieldRef>>, seq<FieldDecl>), CompileError>)
    requires whole == Prefixed([v], rest)
    requires v.Field? ==> other != []
    requires restOther == if v.Field? then other[..|other| - 1] else other
    requires |restOther| < |Fields(tail)| ==> rest == Failure(TooManyPieces)
    requires |restOther| >= |Fields(tail)| ==> rest == Success((tail, restOther[..|restOther| - |Fields(tail)|]))
    ensures |other| < |Fields([v] + tail)| ==> whole == Failure(TooManyPieces)
    ensures |other| >= |Fields([v] + tail)| ==>
      whole == Success(([v] + tail, other[..|other| - |Fields([v] + tail)|]))
  {
    var vs := [v] + tail;
    assert vs[1..] == tail;
    var n := |Fields(tail)|;
    if |restOther| >= n {
      assert restOther[..|restOther| - n] == other[..|other| - |Fields(vs)|];
    }
  }

  /** Compiling one value against other fields gives the same spec, failing only when they run out. */
  lemma ValueFieldCount(kind: VariantKind, raw: Bytes, counter: nat, fields: seq<FieldDecl>, other: seq<FieldDecl>)
    requires CompileValue(kind, raw, counter, fields).Success?
    ensures var (v, c, _) := CompileValue(kind, raw, counter, fields).value;
      CompileValue(kind, raw, counter, other) ==
        if v.Field? && other == [] then Failure(TooManyPieces)
        else Success((v, c, if v.Field? then other[..|other| - 1] else other))
  {
  }

  /** A query piece compiles the same whatever the fields, if there is one to pop when it needs it. */
  lemma PairFieldCount(kind: VariantKind, raw: Bytes, counter: nat, fields: seq<FieldDecl>, other: seq<FieldDecl>)
    requires CompilePair(kind, raw, counter, fields).Success?
    ensures var (q, c, _) := CompilePair(kind, raw, counter, fields).value;
      CompilePair(kind, raw, counter, other) ==
        if Takes(q) && other == [] then Failure(TooManyPieces)
        else Success((q, c, if Takes(q) then other[..|other| - 1] else other))
  {
    if '=' in raw {
      var (_, v) := SplitFirst(raw, '=').value;
      ValueFieldCount(kind, v, counter, fields, other);
    }
  }

  lemma {:induction false} PairsFieldCount(kind: VariantKind, pieces: seq<Bytes>, counter: nat, fields: seq<FieldDecl>, other: seq<FieldDecl>)
    requires CompilePairs(kind, pieces, counter, fields).Success?
    ensures var qs := CompilePairs(kind, pieces, counter, fields).value.0;
      |other| < |QueryFields(qs)| ==> CompilePairs(kind, pieces, counter, other) == Failure(TooManyPieces)
    ensures var qs := CompilePairs(kind, pieces, counter, fields).value.0;
      |other| >= |QueryFields(qs)| ==> CompilePairs(kind, pieces, counter, other) == Success((qs, other[..|other| - |QueryFields(qs)|]))
    decreases |pieces|, 2
  {
    if pieces != [] {
      PairsFieldCountStep(kind, pieces, counter, fields, other);
    } else {
      assert other[..|other|] == other;
    }
  }

  /** The inductive step of `PairsFieldCount`. */
  lemma {:induction false} PairsFieldCountStep(kind: VariantKind, pieces: seq<Bytes>, counter: nat, fields: seq<FieldDecl>, other: seq<FieldDecl>)
    requires CompilePairs(kind, pieces, counter, fields).Success? && pieces != []
    ensures var qs := CompilePairs(kind, pieces, counter, fields).value.0;
      |other| < |QueryFields(qs)| ==> CompilePairs(kind, pieces, counter, other) == Failure(TooManyPieces)
    ensures var qs := CompilePairs(kind, pieces, counter, fields).value.0;
      |other| >= |QueryFields(qs)| ==> CompilePairs(kind, pieces, counter, other) == Success((qs, other[..|other| - |QueryFields(qs)|]))
    decreases |pieces|, 1
  {
    PairsCons(kind, pieces, counter, fields);
    var (q, c, rest1) := CompilePair(kind, pieces[0], counter, fields).value;
    var whole := CompilePairs(kind, pieces, counter, fields);
    var tail := CompilePairs(kind, pieces[1..], c, rest1).value.0;
    assert whole.value.0 == [q] + tail;
    PairFieldCount(kind, pieces[0], counter, fields, other);
    if Takes(q) && other == [] {
      PairsStep(kind, pieces, counter, other);
      assert ([q] + tail)[1..] == tail;
    } else {
      var restOther := if Takes(q) then other[..|other| - 1] else other;
      PairsStepTo(kind, pieces, counter, other, q, c, restOther);
      PairsFieldCountRest(kind, pieces, counter, other, q, c, rest1, restOther, tail);
    }
  }

  lemma {:induction false} PairsFieldCountRest(kind: VariantKind, pieces: seq<Bytes>, counter: nat, other: seq<FieldDecl>,
                                               q: QuerySpec<FieldRef>, c: nat, rest1: seq<FieldDecl>, restOther: seq<FieldDecl>,
                                               tail: seq<QuerySpec<FieldRef>>)
    requires pieces != [] && CompilePairs(kind, pieces[1..], c, rest1).Success?
    requires tail == CompilePairs(kind, pieces[1..], c, rest1).value.0
    requires CompilePairs(kind, pieces, counter, other) == Prefixed([q], CompilePairs(kind, pieces[1..], c, restOther))
    requires Takes(q) ==> other != []
    requires restOther == if Takes(q) then other[..|other| - 1] else other
    ensures |other| < |QueryFields([q] + tail)| ==> CompilePairs(kind, pieces, counter, other) == Failure(TooManyPieces)
    ensures |other| >= |QueryFields([q] + tail)| ==>
      CompilePairs(kind, pieces, counter, other) == Success(([q] + tail, other[..|other| - |QueryFields([q] + tail)|]))
    decreases |pieces|, 0
  {
    var whole := CompilePairs(kind, pieces, counter, other);
    var rest := CompilePairs(kind, pieces[1..], c, restOther);
    assert && (|restOther| < |QueryFields(tail)| ==> rest == Failure(TooManyPieces))
           && (|restOther| >= |QueryFields(tail)| ==> rest == Success((tail, restOther[..|restOther| - |QueryFields(tail)|]))) by {
      PairsFieldCount(kind, pieces[1..], c, rest1, restOther);
    }
    RecountCons(q, tail, other, restOther, whole, rest);
    assert ([q] + tail)[1..] == tail;
  }

  /**
   * The inductive step of `PairsFieldCount`, over the results alone: `whole`
   * puts `q` in front of `rest`, and `rest` is the recount of `tail` against
   * the fields left after `q`.
   */
  lemma RecountCons(q: QuerySpec<FieldRef>, tail: seq<QuerySpec<FieldRef>>, other: seq<FieldDecl>, restOther: seq<FieldDecl>,
                    whole: Result<(seq<QuerySpec<FieldRef>>, seq<FieldDecl>), CompileError>,
                    rest: Result<(seq<QuerySpec<FieldRef>>, seq<FieldDecl>), CompileError>)
    requires whole == Prefixed([q], rest)
    requires Takes(q) ==> other != []
    requires restOther == if Takes(q) then other[..|other| - 1] else other
    requires |restOther| < |QueryFields(tail)| ==> rest == Failure(TooManyPieces)
    requires |restOther| >= |QueryFields(tail)| ==> rest == Success((tail, restOther[..|restOther| - |QueryFields(tail)|]))
    ensures |other| < |QueryFields([q] + tail)| ==> whole == Failure(TooManyPieces)
    ensures |other| >= |QueryFields([q] + tail)| ==>
      whole == Success(([q] + tail, other[..|other| - |QueryFields([q] + tail)|]))
  {
    var qs := [q] + tail;
    assert qs[1..] == tail;
    var n := |QueryFields(tail)|;
    if |restOther| >= n {
      assert restOther[..|restOther| - n] == other[..|other| - |QueryFields(qs)|];
    }
  }

  lemma PartsArity(kind: VariantKind, p: Bytes, q: Option<Bytes>, fields: seq<FieldDecl>, other: seq<FieldDecl>)
    requires CompileParts(kind, p, q, fields).Success?
    ensures CompileParts(kind, p, q, other) ==
      if |other| < |fields| then Failure(TooManyPieces)
      else if |other| > |fields| then Failure(FieldsUnused(Names(other[..|other| - |fields|])))
      else CompileParts(kind, p, q, fields)
  {
    PartsOf(kind, p, q, fields);
    var n := |Fields(PathSpecs(kind, p, fields).value.0)|;
    if q.Some? && |other| >= n {
      QueryPartArity(kind, p, q.value, fields, other);
    } else {
      PathPartArity(kind, p, q, fields, other);
    }
  }

  /** `PartsArity` when the query takes no part: there is none, or the path already runs out of fields. */
  lemma PathPartArity(kind: VariantKind, p: Bytes, q: Option<Bytes>, fields: seq<FieldDecl>, other: seq<FieldDecl>)
    requires CompileParts(kind, p, q, fields).Success? && PathSpecs(kind, p, fields).Success?
    requires q.None? || |other| < |Fields(PathSpecs(kind, p, fields).value.0)|
    ensures CompileParts(kind, p, q, other) ==
      if |other| < |fields| then Failure(TooManyPieces)
      else if |other| > |fields| then Failure(FieldsUnused(Names(other[..|other| - |fields|])))
      else CompileParts(kind, p, q, fields)
  {
    var (path, rest) := PathSpecs(kind, p, fields).value;
    var n := |Fields(path)|;
    assert q.None? ==> rest == [] && CompileParts(kind, p, q, fields).value == Template(path, []) by {
      PartsOf(kind, p, q, fields);
    }
    assert |other| < n ==> PathSpecs(kind, p, other) == Failure(TooManyPieces) by {
      PathFieldCount(kind, p, fields, other);
    }
    assert |other| >= n ==> PathSpecs(kind, p, other) == Success((path, other[..|other| - n])) by {
      PathFieldCount(kind, p, fields, other);
    }
    assert |rest| + n == |fields| by {
      PathCount(kind, p, fields);
    }
    if |other| < n {
      PartsPathFailure(kind, p, q, other);
    } else {
      var left := other[..|other| - n];
      PartsWithoutQuery(kind, p, other, path, left);
      PartsWithoutQuery(kind, p, fields, path, rest);
      assert left == other[..|other| - |fields|];
    }
  }

  /** `SegsFieldCount` for a whole path. */
  lemma PathFieldCount(kind: VariantKind, p: Bytes, fields: seq<FieldDecl>, other: seq<FieldDecl>)
    requires PathSpecs(kind, p, fields).Success?
    ensures var path := PathSpecs(kind, p, fields).value.0;
      |other| < |Fields(path)| ==> PathSpecs(kind, p, other) == Failure(TooManyPieces)
    ensures var path := PathSpecs(kind, p, fields).value.0;
      |other| >= |Fields(path)| ==> PathSpecs(kind, p, other) == Success((path, other[..|other| - |Fields(path)|]))
  {
    SegsFieldCount(kind, PathPieces(p), 0, fields, other);
  }

  /** A compiled path leaves the fields its placeholders did not pop. */
  lemma PathCount(kind: VariantKind, p: Bytes, fields: seq<FieldDecl>)
    requires PathSpecs(kind, p, fields).Success?
    ensures var (path, rest) := PathSpecs(kind, p, fields).value;
      |rest| + |Fields(path)| == |fields|
  {
    SegsCount(kind, PathPieces(p), 0, fields);
  }

  /** `CompileParts` fails as soon as the path does. */
  lemma PartsPathFailure(kind: VariantKind, p: Bytes, q: Option<Bytes>, fields: seq<FieldDecl>)
    requires PathSpecs(kind, p, fields).Failure?
    ensures CompileParts(kind, p, q, fields) == Failure(PathSpecs(kind, p, fields).error)
  {
  }

  /** `CompileParts` without a query, once the path is compiled. */
  lemma PartsWithoutQuery(kind: VariantKind, p: Bytes, fields: seq<FieldDecl>, path: seq<RouteValue<FieldRef>>, rest: seq<FieldDecl>)
    requires PathSpecs(kind, p, fields) == Success((path, rest))
    ensures CompileParts(kind, p, None, fields) == Finish(path, [], rest)
  {
  }

  /** `PartsArity` once the path has taken its fields from `other`. */
  lemma QueryPartArity(kind: VariantKind, p: Bytes, q: Bytes, fields: seq<FieldDecl>, other: seq<FieldDecl>)
    requires CompileParts(kind, p, Some(q), fields).Success? && PathSpecs(kind, p, fields).Success?
    requires |other| >= |Fields(PathSpecs(kind, p, fields).value.0)|
    ensures CompileParts(kind, p, Some(q), other) ==
      if |other| < |fields| then Failure(TooManyPieces)
      else if |other| > |fields| then Failure(FieldsUnused(Names(other[..|other| - |fields|])))
      else CompileParts(kind, p, Some(q), fields)
  {
    var (path, rest) := PathSpecs(kind, p, fields).value;
    var query := QuerySpecs(kind, q, rest).value.0;
    assert QuerySpecs(kind, q, rest) == Success((query, [])) by {
      PartsOf(kind, p, Some(q), fields);
    }
    var restOther := other[..|other| - |Fields(path)|];
    assert PathSpecs(kind, p, other) == Success((path, restOther)) by {
      PathFieldCount(kind, p, fields, other);
    }
    assert |rest| + |Fields(path)| == |fields| by {
      PathCount(kind, p, fields);
    }
    assert CompileParts(kind, p, Some(q), fields) == Finish(path, query, []) by {
      PartsWithQuery(kind, p, q, fields, path, rest);
    }
    if |restOther| < |rest| {
      assert QuerySpecs(kind, q, restOther) == Failure(TooManyPieces) by {
        QueryArity(kind, q, rest, restOther);
      }
      assert CompileParts(kind, p, Some(q), other) == Failure(TooManyPieces) by {
        PartsWithQuery(kind, p, q, other, path, restOther);
      }
    } else {
      var left := restOther[..|restOther| - |rest|];
      assert QuerySpecs(kind, q, restOther) == Success((query, left)) by {
        QueryArity(kind, q, rest, restOther);
      }
      assert CompileParts(kind, p, Some(q), other) == Finish(path, query, left) by {
        PartsWithQuery(kind, p, q, other, path, restOther);
      }
      assert left == other[..|other| - |fields|];
    }
  }

  /** `CompileParts` with a query, once the path is compiled. */
  lemma PartsWithQuery(kind: VariantKind, p: Bytes, q: Bytes, fields: seq<FieldDecl>, path: seq<RouteValue<FieldRef>>, rest: seq<FieldDecl>)
    requires PathSpecs(kind, p, fields) == Success((path, rest))
    ensures CompileParts(kind, p, Some(q), fields) ==
      match QuerySpecs(kind, q, rest)
      case Failure(e) => Failure(e)
      case Success((query, left)) => Finish(path, query, left)
  {
  }

  /** The query part of `PartsArity`: the query takes the same specs from other fields, down to the last one. */
  lemma QueryArity(kind: VariantKind, raw: Bytes, rest: seq<FieldDecl>, other: seq<FieldDecl>)
    requires QuerySpecs(kind, raw, rest).Success? && QuerySpecs(kind, raw, rest).value.1 == []
    ensures QuerySpecs(kind, raw, other) ==
      if |other| < |rest| then Failure(TooManyPieces)
      else Success((QuerySpecs(kind, raw, rest).value.0, other[..|other| - |rest|]))
  {
    var pieces := Split(raw, '&');
    var query := QuerySpecs(kind, raw, rest).value.0;
    assert |QueryFields(query)| == |rest| by {
      PairsCount(kind, pieces, 0, rest);
    }
    PairsFieldCount(kind, pieces, 0, rest, other);
  }

  /**
   * Only the number of fields matters, and it must be exact: a route that
   * compiles against `fields` fails against fewer with `TooManyPieces`, and
   * against more with `FieldsUnused` naming the fields left at the front.
   */
  lemma CompiledArity(kind: VariantKind, raw: Bytes, fields: seq<FieldDecl>, other: seq<FieldDecl>)
    requires Compiled(kind, raw, fields).Success?
    ensures Compiled(kind, raw, other) ==
      if |other| < |fields| then Failure(TooManyPieces)
      else if |other| > |fields| then Failure(FieldsUnused(Names(other[..|other| - |fields|])))
      else Compiled(kind, raw, fields)
  {
    match SplitFirst(raw, '?')
    case None => PartsArity(kind, raw, None, fields, other);
    case Some((p, q)) => PartsArity(kind, p, Some(q), fields, other);
  }

  /** The fields of a list of values that each admit their kind are all admitted. */
  lemma {:induction false} FieldsAdmitted(kind: VariantKind, vs: seq<RouteValue<FieldRef>>)
    requires forall i | 0 <= i < |vs| && vs[i].Field? :: Admits(kind, vs[i].field)
    ensures forall i | 0 <= i < |Fields(vs)| :: Admits(kind, Fields(vs)[i])
    ensures kind == UnitVariant ==> Fields(vs) == []
  {
    if vs != [] {
      FieldsAdmitted(kind, vs[1..]);
    }
  }

  lemma {:induction false} QueryFieldsAdmitted(kind: VariantKind, qs: seq<QuerySpec<FieldRef>>)
    requires forall i | 0 <= i < |qs| && Takes(qs[i]) :: Admits(kind, qs[i].value.value.field)
    ensures forall i | 0 <= i < |QueryFields(qs)| :: Admits(kind, QueryFields(qs)[i])
    ensures kind == UnitVariant ==> QueryFields(qs) == []
  {
    if qs != [] {
      QueryFieldsAdmitted(kind, qs[1..]);
    }
  }

  lemma ValueAdmitted(kind: VariantKind, raw: Bytes, counter: nat, fields: seq<FieldDecl>)
    requires CompileValue(kind, raw, counter, fields).Success?
    requires CompileValue(kind, raw, counter, fields).value.0.Field?
    ensures Admits(kind, CompileValue(kind, raw, counter, fields).value.0.field)
  {
    assert ParseValue(kind, raw, counter).Success?;
  }

  /** Every placeholder of a compiled path is one the variant admits. */
  lemma {:induction false} SegsAdmitted(kind: VariantKind, pieces: seq<Bytes>, counter: nat, fields: seq<FieldDecl>)
    requires CompileSegs(kind, pieces, counter, fields).Success?
    ensures var vs := CompileSegs(kind, pieces, counter, fields).value.0;
      forall i | 0 <= i < |vs| && vs[i].Field? :: Admits(kind, vs[i].field)
    decreases |pieces|
  {
    if pieces != [] {
      var (v, c, rest1) := CompileValue(kind, pieces[0], counter, fields).value;
      SegsAdmitted(kind, pieces[1..], c, rest1);
      if v.Field? {
        ValueAdmitted(kind, pieces[0], counter, fields);
      }
      var tail := CompileSegs(kind, pieces[1..], c, rest1).value.0;
      assert CompileSegs(kind, pieces, counter, fields).value.0 == [v] + tail;
    }
  }

  /** Every placeholder of a compiled query is one the variant admits. */
  lemma {:induction false} PairsAdmitted(kind: VariantKind, pieces: seq<Bytes>, counter: nat, fields: seq<FieldDecl>)
    requires CompilePairs(kind, pieces, counter, fields).Success?
    ensures var qs := CompilePairs(kind, pieces, counter, fields).value.0;
      forall i | 0 <= i < |qs| && Takes(qs[i]) :: Admits(kind, qs[i].value.value.field)
    decreases |pieces|
  {
    if pieces != [] {
      var (q, c, rest1) := CompilePair(kind, pieces[0], counter, fields).value;
      PairsAdmitted(kind, pieces[1..], c, rest1);
      if Takes(q) {
        var (_, v) := SplitFirst(pieces[0], '=').value;
        ValueAdmitted(kind, v, counter, fields);
      }
      var tail := CompilePairs(kind, pieces[1..], c, rest1).value.0;
      assert CompilePairs(kind, pieces, counter, fields).value.0 == [q] + tail;
    }
  }

  lemma PartsShape(kind: VariantKind, p: Bytes, q: Option<Bytes>, fields: seq<FieldDecl>)
    requires CompileParts(kind, p, q, fields).Success?
    ensures var t := CompileParts(kind, p, q, fields).value;
      && |TemplateFields(t)| == |fields|
      && (forall i | 0 <= i < |TemplateFields(t)| :: Admits(kind, TemplateFields(t)[i]))
      && (kind == UnitVariant ==> TemplateFields(t) == [])
      && |t.path| == |PathPieces(p)|
      && (q.None? ==> t.query == [])
      && (q.Some? ==> |t.query| == |Split(q.value, '&')|)
  {
    PartsCount(kind, p, q, fields);
    PartsAdmitted(kind, p, q, fields);
  }

  /** What a successful `CompileParts` is made of. */
  lemma PartsOf(kind: VariantKind, p: Bytes, q: Option<Bytes>, fields: seq<FieldDecl>)
    requires CompileParts(kind, p, q, fields).Success?
    ensures PathSpecs(kind, p, fields).Success?
    ensures var (path, rest) := PathSpecs(kind, p, fields).value;
      q.None? ==> rest == [] && CompileParts(kind, p, q, fields).value == Template(path, [])
    ensures var (path, rest) := PathSpecs(kind, p, fields).value;
      q.Some? ==> QuerySpecs(kind, q.value, rest).Success? && QuerySpecs(kind, q.value, rest).value.1 == []
    ensures var (path, rest) := PathSpecs(kind, p, fields).value;
      q.Some? ==> CompileParts(kind, p, q, fields).value == Template(path, QuerySpecs(kind, q.value, rest).value.0)
  {
  }

  lemma PartsCount(kind: VariantKind, p: Bytes, q: Option<Bytes>, fields: seq<FieldDecl>)
    requires CompileParts(kind, p, q, fields).Success?
    ensures var t := CompileParts(kind, p, q, fields).value;
      && |TemplateFields(t)| == |fields|
      && |t.path| == |PathPieces(p)|
      && (q.None? ==> t.query == [])
      && (q.Some? ==> |t.query| == |Split(q.value, '&')|)
  {
    PartsOf(kind, p, q, fields);
    var (path, rest) := PathSpecs(kind, p, fields).value;
    SegsCount(kind, PathPieces(p), 0, fields);
    if q.Some? {
      var query := QuerySpecs(kind, q.value, rest).value.0;
      PairsCount(kind, Split(q.value, '&'), 0, rest);
      assert |TemplateFields(Template(path, query))| == |Fields(path)| + |QueryFields(query)|;
    } else {
      assert QueryFields<FieldRef>([]) == [];
    }
  }

  lemma PartsAdmitted(kind: VariantKind, p: Bytes, q: Option<Bytes>, fields: seq<FieldDecl>)
    requires CompileParts(kind, p, q, fields).Success?
    ensures var t := CompileParts(kind, p, q, fields).value;
      && (forall i | 0 <= i < |TemplateFields(t)| :: Admits(kind, TemplateFields(t)[i]))
      && (kind == UnitVariant ==> TemplateFields(t) == [])
  {
    PartsOf(kind, p, q, fields);
    var (path, rest) := PathSpecs(kind, p, fields).value;
    SegsAdmitted(kind, PathPieces(p), 0, fields);
    FieldsAdmitted(kind, path);
    var query := if q.Some? then QuerySpecs(kind, q.value, rest).value.0 else [];
    if q.Some? {
      PairsAdmitted(kind, Split(q.value, '&'), 0, rest);
    }
    QueryFieldsAdmitted(kind, query);
    AdmittedAppend(kind, Fields(path), QueryFields(query));
  }

  lemma AdmittedAppend(kind: VariantKind, a: seq<FieldRef>, b: seq<FieldRef>)
    requires forall i | 0 <= i < |a| :: Admits(kind, a[i])
    requires forall i | 0 <= i < |b| :: Admits(kind, b[i])
    ensures forall i | 0 <= i < |a + b| :: Admits(kind, (a + b)[i])
  {
  }

  /**
   * A compiled template has exactly one placeholder per field, and each is of
   * a form the variant admits: `{}` for tuple variants, `{name}` for named
   * ones. Without a `?`, the query is empty and the path has one spec per piece.
   */
  lemma CompiledShape(kind: VariantKind, raw: Bytes, fields: seq<FieldDecl>)
    requires Compiled(kind, raw, fields).Success?
    ensures var t := Compiled(kind, raw, fields).value;
      && |TemplateFields(t)| == |fields|
      && (forall i | 0 <= i < |TemplateFields(t)| :: Admits(kind, TemplateFields(t)[i]))
      && (kind == UnitVariant ==> TemplateFields(t) == [])
      && ('?' !in raw ==> t.query == [] && |t.path| == |PathPieces(raw)|)
      && ('?' in raw ==> |t.path| == |PathPieces(SplitFirst(raw, '?').value.0)|
                         && |t.query| == |Split(SplitFirst(raw, '?').value.1, '&')|)
  {
    match SplitFirst(raw, '?')
    case None => PartsShape(kind, raw, None, fields);
    case Some((p, q)) => PartsShape(kind, p, Some(q), fields);
  }

  /** A unit variant's route compiles only without placeholders, and so only with no fields. */
  lemma UnitHasNoPlaceholders(raw: Bytes, fields: seq<FieldDecl>)
    requires Compiled(UnitVariant, raw, fields).Success?
    ensures TemplateFields(Compiled(UnitVariant, raw, fields).value) == [] && fields == []
  {
    CompiledShape(UnitVariant, raw, fields);
  }

  /** A `?` with nothing after it is refused, once the path before it compiles. */
  lemma EmptyQueryRejected(kind: VariantKind, p: Bytes, fields: seq<FieldDecl>)
    requires '?' !in p && PathSpecs(kind, p, fields).Success?
    ensures Compiled(kind, p + ['?'], fields) == Failure(EmptyQuery)
  {
    SplitFirstAt(p, '?', []);
    assert p + ['?'] + [] == p + ['?'];
  }
}
