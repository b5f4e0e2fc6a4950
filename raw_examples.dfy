/**
 * The unit tests and doc-tests of the wire codec, one fact per lemma.
 * Each concrete string is taken apart by a small helper lemma so that
 * the solver never has to unfold a long literal in one go.
 */
module RawExamples {
  import opened Wrappers
  import opened Text
  import opened Raw
  import Words

  lemma LeadingSlashExample()
    ensures ParsePath("/foo") == ["foo"]
  {
    ParsePathOfPieces("/foo", "/", ["foo"]);
  }

  lemma PlainPiecesExample()
    ensures ParsePath("/foo/bar/baz") == ["foo", "bar", "baz"]
  {
    var ps: seq<Bytes> := ["foo", "bar", "baz"];
    assert ps[1..] == ["bar", "baz"] && ps[2..] == ["baz"];
    assert Join(ps, '/') == "foo/bar/baz";
    ParsePathOfPieces("/foo/bar/baz", "/", ps);
  }

  lemma EmptySegmentsExample()
    ensures ParsePath("foo//bar/") == ["foo", "", "bar", ""]
  {
    var ps: seq<Bytes> := ["foo", "", "bar", ""];
    assert ps[1..] == ["", "bar", ""] && ps[2..] == ["bar", ""] && ps[3..] == [""];
    assert Join(ps, '/') == "foo//bar/";
    ParsePathOfPieces("foo//bar/", [], ps);
  }

  /** `%2F` and `%2f` both decode to `/`. */
  lemma EscapedSlashSegment(seg: Bytes, x: Byte)
    requires (x == 'F' || x == 'f') && seg == "foo" + ['%', '2', x] + "bar"
    ensures Decode(seg) == "foo/bar"
  {
    DecodeEscape("foo", '2', x, "bar");
    assert "foo" + ['/'] + "bar" == "foo/bar";
  }

  lemma EscapedSlashPieces(p: Bytes, seg: Bytes)
    requires '/' !in seg && p == ['/'] + seg + ['/'] + "baz"
    ensures RawSegments(p) == [seg, "baz"]
  {
    var pieces := [seg, "baz"];
    assert Join(pieces, '/') == seg + ['/'] + "baz";
    assert p == ['/'] + Join(pieces, '/');
    StripOneSlash(['/'], Join(pieces, '/'));
    RawSegmentsOfJoin(p, pieces);
  }

  /** An escaped `/` stays inside its segment, whatever the case of its hex digits. */
  lemma EscapedSlashExample(p: Bytes, x: Byte)
    requires (x == 'F' || x == 'f') && p == "/foo%2" + [x] + "bar/baz"
    ensures ParsePath(p) == ["foo/bar", "baz"]
  {
    var seg := "foo" + ['%', '2', x] + "bar";
    EscapedSlashSplit(p, x, seg);
    EscapedSlashPieces(p, seg);
    EscapedSlashSegment(seg, x);
    DecodePlain("baz");
  }

  lemma EscapedSlashSplit(p: Bytes, x: Byte, seg: Bytes)
    requires p == "/foo%2" + [x] + "bar/baz" && seg == "foo" + ['%', '2', x] + "bar"
    ensures p == ['/'] + seg + ['/'] + "baz"
  {
  }


  lemma SplitAtQuestionExamples()
    ensures ParsePathAndQuery("") == ([], None)
    ensures ParsePathAndQuery("/") == ([], None)
    ensures ParsePathAndQuery("?") == ([], Some([]))
    ensures ParsePathAndQuery("/?") == ([], Some([]))
  {
    SplitFirstAt("", '?', "");
    SplitFirstAt("/", '?', "");
  }

  /** The query is present exactly when the target has a `?`, even with nothing after it. */
  lemma QueryPresenceExample(s: Bytes)
    requires s == "/foo/bar"
    ensures ParsePathAndQuery(s).1.None? && ParsePathAndQuery(s + ['?']).1.Some?
  {
    assert (s + ['?'])[|s|] == '?';
  }

  /** A query made of a single `key=value` piece. */
  lemma ParseQueryOnePair(q: Bytes, k: Bytes, v: Bytes)
    requires q == k + ['='] + v && '=' !in k && '&' !in k && '&' !in v
    requires '%' !in k && '%' !in v
    ensures ParseQuery(q) == [(k, Some(v))]
  {
    ParseQueryOfPieces(q, [q]);
    ParseQueryPairAt(q, k, v);
  }

  lemma QueryQuestionKeyExample()
    ensures ParseQuery("?key=value") == [("?key", Some("value"))]
  {
    ParseQueryOnePair("?key=value", "?key", "value");
  }

  lemma QueryNoValueExample()
    ensures ParseQuery("key") == [("key", None)]
  {
    DecodePlain("key");
  }

  lemma QueryEmptyValueExample(q: Bytes)
    requires q == "key="
    ensures ParseQuery(q) == [("key", Some(""))]
  {
    var k: Bytes := "key";
    assert q == k + ['='] + [];
    ParseQueryOnePair(q, k, []);
  }

  lemma QuestionPath(p: Bytes)
    requires p == "/foo/"
    ensures ParsePath(p) == ["foo", ""]
  {
    var ps: seq<Bytes> := ["foo", ""];
    var last: seq<Bytes> := [""];
    assert ps[1..] == last && Join(last, '/') == "";
    assert Join(ps, '/') == "foo/";
    ParsePathOfPieces(p, "/", ps);
  }

  lemma QuestionQuery(q: Bytes)
    requires q == "bar=baz?"
    ensures ParseQuery(q) == [("bar", Some("baz?"))]
  {
    var k: Bytes := "bar";
    var v: Bytes := "baz?";
    assert q == k + ['='] + v;
    ParseQueryOnePair(q, k, v);
  }

  lemma QuestionSpelling(s: Bytes, p: Bytes, q: Bytes)
    requires s == "/foo/?bar=baz?" && p == "/foo/" && q == "bar=baz?"
    ensures s == p + ['?'] + q
  {
  }

  /** Only the first `?` separates: later ones belong to the query. */
  lemma QuestionInQueryExample(s: Bytes)
    requires s == "/foo/?bar=baz?"
    ensures ParsePathAndQuery(s) == (["foo", ""], Some([("bar", Some("baz?"))]))
  {
    var p: Bytes := "/foo/";
    var q: Bytes := "bar=baz?";
    QuestionPath(p);
    QuestionQuery(q);
    QuestionSpelling(s, p, q);
    QuestionFirst(p);
    ParsePathAndQueryAt(s, p, q);
  }

  /** A bare key, an empty value and a value, after a `?` with no path before it. */
  lemma QueryValuesMissingExample(s: Bytes)
    requires s == "?foo&bar=&baz=bin"
    ensures ParsePathAndQuery(s) == ([], Some([("foo", None), ("bar", Some("")), ("baz", Some("bin"))]))
  {
    var q: Bytes := "foo&bar=&baz=bin";
    MissingValuesSpelling(s, q);
    MissingValuesQuery(q);
    ParsePathAndQueryAt(s, [], q);
    assert StripPrefix([], '/') == [];
  }

  lemma MissingValuesSpelling(s: Bytes, q: Bytes)
    requires s == "?foo&bar=&baz=bin" && q == "foo&bar=&baz=bin"
    ensures s == [] + ['?'] + q
  {
  }

  lemma MissingValuesQuery(q: Bytes)
    requires q == "foo&bar=&baz=bin"
    ensures ParseQuery(q) == [("foo", None), ("bar", Some("")), ("baz", Some("bin"))]
  {
    var foo, bar, baz, bin: Bytes := "foo", "bar", "baz", "bin";
    MissingValuesParts(q, foo, bar, baz, bin);
    BareEmptyValued(foo, bar, baz, bin);
  }

  lemma MissingValuesParts(q: Bytes, foo: Bytes, bar: Bytes, baz: Bytes, bin: Bytes)
    requires q == "foo&bar=&baz=bin" && foo == "foo" && bar == "bar" && baz == "baz" && bin == "bin"
    ensures q == foo + ['&'] + bar + ['=', '&'] + baz + ['='] + bin
    ensures foo != [] && Plain(foo) && Plain(bar) && Plain(baz) && Plain(bin)
  {
  }

  /** No byte that splits a query or starts an escape. */
  predicate Plain(s: Bytes)
  {
    '&' !in s && '=' !in s && '%' !in s
  }

  /** A bare key, a key with the empty value and a key with a value, in that order. */
  lemma BareEmptyValued(a: Bytes, b: Bytes, c: Bytes, v: Bytes)
    requires a != [] && Plain(a) && Plain(b) && Plain(c) && Plain(v)
    ensures ParseQuery(a + ['&'] + b + ['=', '&'] + c + ['='] + v) == [(a, None), (b, Some([])), (c, Some(v))]
  {
    var q := a + ['&'] + b + ['=', '&'] + c + ['='] + v;
    var empty: Bytes := [];
    var p1, p2 := b + ['='] + empty, c + ['='] + v;
    var pieces := [a, p1, p2];
    assert p1 == b + ['='];
    ThreePiecesJoin(pieces, q, a, b, c, v);
    ParseQueryOfPieces(q, pieces);
    ParseQueryPairBare(a);
    ParseQueryPairAt(p1, b, empty);
    ParseQueryPairAt(p2, c, v);
  }

  lemma ThreePiecesJoin(pieces: seq<Bytes>, q: Bytes, a: Bytes, b: Bytes, c: Bytes, v: Bytes)
    requires pieces == [a, b + ['='], c + ['='] + v] && q == a + ['&'] + b + ['=', '&'] + c + ['='] + v
    ensures Join(pieces, '&') == q
  {
    var rest := pieces[1..];
    assert rest[1..] == [pieces[2]];
    assert Join(rest, '&') == pieces[1] + ['&'] + pieces[2];
    assert q == pieces[0] + ['&'] + (pieces[1] + ['&'] + pieces[2]);
  }

  lemma QuestionFirst(p: Bytes)
    requires p == "/foo/"
    ensures '?' !in p
  {
  }

  lemma RenderEmptyExamples()
    ensures Render([], None) == "/"
    ensures Render([[]], None) == "/"
  {
    var path: seq<Bytes> := [[]];
    assert path[..0] == [];
    assert SegmentsText(path) == "/";
  }

  lemma HelloWorldSpelling(a: Bytes, b: Bytes)
    requires a == "hello" && b == "world"
    ensures ['/'] + a + ['/'] + b == "/hello/world"
    ensures ['/'] + a + ['/'] + b + ['?'] == "/hello/world?"
  {
  }

  lemma RenderPlainSegments(path: seq<Bytes>)
    requires path == ["hello", "world"]
    ensures Render(path, None) == "/hello/world"
    ensures Render(path, Some([])) == "/hello/world?"
  {
    var a: Bytes := "hello";
    var b: Bytes := "world";
    Words.TwoSegmentsText(a, b);
    HelloWorldSpelling(a, b);
    assert PairsText([]) == [];
  }

  lemma DocPairTexts(pairs: seq<QueryPair>)
    requires pairs == [("foo", None), ("bar", Some("")), ("baz", Some("bin"))]
    ensures PairTexts(pairs) == ["foo", "bar=", "baz=bin"]
  {
    assert PairText(pairs[0]) == "foo" by { EncodePlain("foo", QuerySet); }
    assert PairText(pairs[1]) == "bar=" by { EncodePlain("bar", QuerySet); }
    assert PairText(pairs[2]) == "baz=bin" by {
      EncodePlain("baz", QuerySet);
      EncodePlain("bin", QuerySet);
    }
  }

  lemma DocPairsJoin(texts: seq<Bytes>)
    requires texts == ["foo", "bar=", "baz=bin"]
    ensures Join(texts, '&') == "foo&bar=&baz=bin"
  {
    assert texts[1..] == ["bar=", "baz=bin"] && texts[1..][1..] == ["baz=bin"];
    assert Join(texts[1..], '&') == "bar=" + "&" + "baz=bin";
  }

  lemma DocPairsText(pairs: seq<QueryPair>)
    requires pairs == [("foo", None), ("bar", Some("")), ("baz", Some("bin"))]
    ensures PairsText(pairs) == "foo&bar=&baz=bin"
  {
    DocPairTexts(pairs);
    PairsTextJoin(pairs);
    DocPairsJoin(PairTexts(pairs));
  }

  /** Without segments the target is `/?` and the pairs. */
  lemma RenderQueryOnly(pairs: seq<QueryPair>)
    ensures Render([], Some(pairs)) == ['/', '?'] + PairsText(pairs)
  {
    assert SegmentsText([]) == [];
  }

  /** `=` appears only for pairs that carry a value, empty or not. */
  lemma RenderPairsExample(pairs: seq<QueryPair>)
    requires pairs == [("foo", None), ("bar", Some("")), ("baz", Some("bin"))]
    ensures Render([], Some(pairs)) == "/?foo&bar=&baz=bin"
  {
    var t := PairsText(pairs);
    assert t == "foo&bar=&baz=bin" by {
      DocPairsText(pairs);
    }
    assert Render([], Some(pairs)) == ['/', '?'] + t by {
      RenderQueryOnly(pairs);
    }
    QuerySpelling(t);
  }

  lemma QuerySpelling(t: Bytes)
    requires t == "foo&bar=&baz=bin"
    ensures ['/', '?'] + t == "/?foo&bar=&baz=bin"
  {
  }

  /** `/` is escaped in a segment. */
  lemma EncodeSlashExample(s: Bytes)
    requires s == "wor/ld"
    ensures Encode(s, PathSet) == "wor%2Fld"
  {
    var word: Bytes := "wor";
    var tail: Bytes := "/ld";
    assert s == word + tail;
    EncodePlainPrefix(word, tail, PathSet);
    assert tail == ['/'] + "ld";
    EncodeEscaped('/', "ld", PathSet);
    assert word + (['%', '2', 'F'] + "ld") == "wor%2Fld";
  }

  /** `#` is escaped in a query value. */
  lemma EncodeHashExample(s: Bytes)
    requires s == "there#"
    ensures Encode(s, QuerySet) == "there%23"
  {
    var word: Bytes := "there";
    var hash: Bytes := "#";
    assert s == word + hash;
    EncodePlainPrefix(word, hash, QuerySet);
    EncodeEscaped('#', [], QuerySet);
    assert word + "%23" == "there%23";
  }

  /** `?` is left alone in a query key. */
  lemma EncodeQuestionExample()
    ensures Encode("he?llo", QuerySet) == "he?llo"
  {
    EncodePlain("he?llo", QuerySet);
  }
}
