/** The unit tests of `PlainRoute` that agree with the code, one case per lemma. */
module PlainRouteExamples {
  import opened Wrappers
  import opened Text
  import Raw
  import Normalize
  import NormalizeExamples
  import opened Routes
  import opened PlainRoutes
  import opened Words

  /** A single empty segment renders as `/-` and parses back. */
  lemma SingleEmptyStringExample(route: PlainRoute)
    requires route == PlainRoute([[]], None)
    ensures Render(route) == "/-"
    ensures ParseStr(Render(route)) == Success(route)
  {
    var escaped: seq<Bytes> := ["-"];
    assert PathOf(route) == escaped by {
      Normalize.DashRun(0);
    }
    assert Raw.SegmentsText(escaped) == "/-" by {
      assert escaped[..0] == [];
      Raw.EncodePlain("-", Raw.PathSet);
    }
    RoundTrip(route);
  }

  /** The redirect target both examples below share. */
  lemma FooBarTarget(kept: seq<Bytes>)
    requires kept == ["foo", "bar"]
    ensures Raw.Render(kept, None) == "/foo/bar"
  {
    TwoSegmentsText(kept[0], kept[1]);
    FooBarSpelling(kept[0], kept[1]);
  }

  lemma FooBarSpelling(a: Bytes, b: Bytes)
    requires a == "foo" && b == "bar"
    ensures ['/'] + a + ['/'] + b == "/foo/bar"
  {
  }

  lemma DoubleSlashSegments(s: Bytes, segs: seq<Bytes>)
    requires s == "/foo//bar" && segs == ["foo", [], "bar"]
    ensures Raw.ParsePathAndQuery(s) == (segs, None)
  {
    var a: Bytes := "foo";
    var b: Bytes := "bar";
    assert s == ['/'] + a + ['/', '/'] + b;
    DoubleSlashInput(s, a, b);
  }

  lemma DoubleSlashKept(segs: seq<Bytes>)
    requires segs == ["foo", [], "bar"]
    ensures Normalize.NonEmpty(segs) == ["foo", "bar"]
  {
    var tail: seq<Bytes> := ["bar"];
    assert segs[1..] == [[], "bar"] && segs[1..][1..] == tail;
    assert Normalize.NonEmpty(tail) == tail by { assert tail[1..] == []; }
    assert Normalize.NonEmpty(segs) == ["foo"] + tail;
  }

  lemma DoubleSlashRoute(segs: seq<Bytes>)
    requires segs == ["foo", [], "bar"]
    ensures Parse(segs, None) == Failure(NormalizationFailed("/foo/bar"))
  {
    DoubleSlashKept(segs);
    FooBarTarget(Normalize.NonEmpty(segs));
    assert segs[1] == [];
  }

  /** A doubled `/` is not canonical and redirects to the single-slash form. */
  lemma DoubleSlashExample(s: Bytes)
    requires s == "/foo//bar"
    ensures ParseStr(s) == Failure(NormalizationFailed("/foo/bar"))
  {
    var segs: seq<Bytes> := ["foo", [], "bar"];
    DoubleSlashSegments(s, segs);
    DoubleSlashRoute(segs);
  }

  lemma TrailingSlashSegments(s: Bytes, segs: seq<Bytes>)
    requires s == "/foo/bar/" && segs == ["foo", "bar", []]
    ensures Raw.ParsePathAndQuery(s) == (segs, None)
  {
    var a: Bytes := "foo";
    var b: Bytes := "bar";
    assert s == ['/'] + a + ['/'] + b + ['/'];
    TrailingSlashInput(s, a, b);
  }

  /** A trailing `/` is not canonical either, and redirects to the form without it. */
  lemma TrailingSlashExample(s: Bytes)
    requires s == "/foo/bar/"
    ensures ParseStr(s) == Failure(NormalizationFailed("/foo/bar"))
  {
    var segs: seq<Bytes> := ["foo", "bar", []];
    TrailingSlashSegments(s, segs);
    NormalizeExamples.TrailingSlashExample(segs);
  }

  // ---------------------------------------------------------------------------
  // Bytes the encode sets leave unescaped: where the round trip fails
  // ---------------------------------------------------------------------------

  /** PATH_SET leaves `%` and hexadecimal digits alone, so `%41` is written as it is. */
  lemma PercentSegmentRender(seg: Bytes)
    requires seg == "%41"
    ensures Render(PlainRoute([seg], None)) == ['/'] + seg
  {
    var path: seq<Bytes> := [seg];
    assert !Normalize.AllDashes(seg) by {
      assert seg[0] != '-';
    }
    assert PathOf(PlainRoute(path, None)) == path;
    Raw.EncodePlain(seg, Raw.PathSet);
    assert path[..0] == [];
  }

  /** `/%41` parses to the segment `A`: the decoder reads the escape. */
  lemma PercentSegmentParse(s: Bytes, seg: Bytes)
    requires seg == "%41" && s == ['/'] + seg
    ensures ParseStr(s) == Success(PlainRoute(["A"], None))
  {
    assert '?' !in s;
    assert Join([seg], '/') == seg;
    Raw.StripOneSlash(['/'], seg);
    Raw.RawSegmentsOfJoin(s, [seg]);
    var a: Bytes := "A";
    assert Raw.Decode(seg) == a by {
      assert seg == [] + ['%', '4', '1'] + [];
      Raw.DecodeEscape([], '4', '1', []);
      assert Raw.HexValue('4') == Some(4) && Raw.HexValue('1') == Some(1);
    }
    var path := Raw.ParsePath(s);
    assert |path| == 1 && path[0] == Raw.Decode(seg);
    assert path == [a];
    assert Normalize.Unescape(a) == a by {
      assert a[0] != '-';
    }
    assert [] !in path;
    assert seq(1, i requires 0 <= i < 1 => Normalize.Unescape(path[i])) == path;
  }

  /**
   * The segment `%41` renders as `/%41`, which parses back as `A`: a segment
   * holding `%` does not survive the path round trip.
   */
  lemma PercentSegmentExample(seg: Bytes)
    requires seg == "%41"
    ensures Render(PlainRoute([seg], None)) == "/%41"
    ensures ParseStr(Render(PlainRoute([seg], None))) == Success(PlainRoute(["A"], None))
    ensures ParseStr(Render(PlainRoute([seg], None))) != Success(PlainRoute([seg], None))
  {
    PercentSegmentRender(seg);
    PercentSegmentParse(['/'] + seg, seg);
  }

  /** With no segments the target is `/?` and the text of the one pair. */
  lemma OneValueText(v: Bytes)
    requires forall i | 0 <= i < |v| :: !Raw.Escapes(Raw.QuerySet, v[i])
    ensures Render(PlainRoute([], Some([([], Some(v))]))) == ['/', '?', '='] + v
  {
    var pairs: seq<Raw.QueryPair> := [([], Some(v))];
    assert PathOf(PlainRoute([], Some(pairs))) == [];
    assert Raw.SegmentsText([]) == [];
    Raw.EncodePlain(v, Raw.QuerySet);
    assert Raw.PairsText(pairs) == ['='] + v;
  }

  /** A target that parses to no segments and the given query. */
  lemma QueryOnlyParse(s: Bytes, q: Bytes, pairs: seq<Raw.QueryPair>)
    requires s == ['/', '?'] + q && Raw.ParseQuery(q) == pairs
    ensures ParseStr(s) == Success(PlainRoute([], Some(pairs)))
  {
    assert s == ['/'] + ['?'] + q;
    Raw.ParsePathAndQueryAt(s, ['/'], q);
    assert StripPrefix(['/'], '/') == [];
  }

  /**
   * QUERY_SET leaves `&` alone, so the value `&` renders as `/?=&` (not
   * `/?=%26`), which parses as two pairs: the round trip fails.
   */
  lemma AmpValueExample(v: Bytes)
    requires v == "&"
    ensures Render(PlainRoute([], Some([([], Some(v))]))) == "/?=&"
    ensures ParseStr(Render(PlainRoute([], Some([([], Some(v))])))) ==
      Success(PlainRoute([], Some([([], Some([])), ([], None)])))
  {
    var q := ['='] + v;
    var t := ['/', '?'] + q;
    var route := PlainRoute([], Some([([], Some(v))]));
    assert Render(route) == t by {
      OneValueText(v);
    }
    assert t == "/?=&";
    var pairs: seq<Raw.QueryPair> := [([], Some([])), ([], None)];
    AmpQuery(q, v, pairs);
    QueryOnlyParse(t, q, pairs);
  }

  lemma AmpQuery(q: Bytes, v: Bytes, pairs: seq<Raw.QueryPair>)
    requires v == "&" && q == ['='] + v && pairs == [([], Some([])), ([], None)]
    ensures Raw.ParseQuery(q) == pairs
  {
    var pieces: seq<Bytes> := ["=", []];
    assert Join(pieces, '&') == q by {
      assert pieces[1..] == [[]];
    }
    Raw.ParseQueryOfPieces(q, pieces);
    assert pieces[0] == [] + ['='] + [];
    Raw.ParseQueryPairAt(pieces[0], [], []);
    Raw.ParseQueryPairBare(pieces[1]);
  }

  /**
   * QUERY_SET leaves `=` alone too, so the value `=` renders as `/?==` (not
   * `/?=%3D`); this one does parse back, since a pair splits at its first `=`.
   */
  lemma EqualValueExample(v: Bytes)
    requires v == "="
    ensures Render(PlainRoute([], Some([([], Some(v))]))) == "/?=="
    ensures ParseStr(Render(PlainRoute([], Some([([], Some(v))])))) == Success(PlainRoute([], Some([([], Some(v))])))
  {
    var q := ['='] + v;
    var t := ['/', '?'] + q;
    var route := PlainRoute([], Some([([], Some(v))]));
    assert Render(route) == t by {
      OneValueText(v);
    }
    assert t == "/?==";
    OneValueQuery(q, v);
    QueryOnlyParse(t, q, [([], Some(v))]);
  }

  /** A query of one pair with an empty key and a value without `&` or `%`. */
  lemma OneValueQuery(q: Bytes, v: Bytes)
    requires q == ['='] + v && '&' !in v && '%' !in v
    ensures Raw.ParseQuery(q) == [([], Some(v))]
  {
    assert Join([q], '&') == q;
    Raw.ParseQueryOfPieces(q, [q]);
    assert q == [] + ['='] + v;
    Raw.ParseQueryPairAt(q, [], v);
  }

  /**
   * The value `%00` is written as it is (not as `%2500`), and parses back as
   * the single byte 0: a value holding `%` does not survive the round trip.
   */
  lemma PercentValueExample(v: Bytes)
    requires v == "%00"
    ensures Render(PlainRoute([], Some([([], Some(v))]))) == "/?=%00"
    ensures ParseStr(Render(PlainRoute([], Some([([], Some(v))])))) == Success(PlainRoute([], Some([([], Some([0 as char]))])))
  {
    var q := ['='] + v;
    var t := ['/', '?'] + q;
    var route := PlainRoute([], Some([([], Some(v))]));
    assert Render(route) == t by {
      OneValueText(v);
    }
    assert t == "/?=%00";
    var pairs: seq<Raw.QueryPair> := [([], Some([0 as char]))];
    PercentValueQuery(q, v);
    QueryOnlyParse(t, q, pairs);
  }

  lemma PercentValueQuery(q: Bytes, v: Bytes)
    requires v == "%00" && q == ['='] + v
    ensures Raw.ParseQuery(q) == [([], Some([0 as char]))]
  {
    assert Join([q], '&') == q;
    Raw.ParseQueryOfPieces(q, [q]);
    assert q == [] + ['='] + v;
    SplitFirstAt([], '=', v);
    assert Raw.Decode(v) == [0 as char] by {
      assert v == [] + ['%', '0', '0'] + [];
      Raw.DecodeEscape([], '0', '0', []);
      assert Raw.HexValue('0') == Some(0);
    }
  }
}
