/**
 * Plain words and the targets built from them: small generic facts the
 * example modules use so that no proof has to unfold a long literal.
 */
module Words {
  import opened Wrappers
  import opened Text
  import Raw

  /** Lower-case letters, digits and dots: bytes neither codec nor normaliser treats specially. */
  predicate Plain(s: Bytes)
  {
    s != [] && forall i | 0 <= i < |s| :: 'a' <= s[i] <= 'z' || '0' <= s[i] <= '9' || s[i] == '.'
  }

  /** A plain word holds none of the separators and does not start with `-`. */
  lemma PlainBytes(s: Bytes)
    requires Plain(s)
    ensures '/' !in s && '%' !in s && '?' !in s && '&' !in s && '=' !in s && s[0] != '-'
  {
  }

  /** Neither encode set escapes a byte of a plain word. */
  lemma PlainEncodes(s: Bytes)
    requires Plain(s)
    ensures Raw.Encode(s, Raw.PathSet) == s && Raw.Encode(s, Raw.QuerySet) == s
  {
    Raw.EncodePlain(s, Raw.PathSet);
    Raw.EncodePlain(s, Raw.QuerySet);
  }

  /** Segments a path parser takes back unchanged. */
  predicate Clean(segs: seq<Bytes>)
  {
    forall i | 0 <= i < |segs| :: '/' !in segs[i] && '%' !in segs[i] && '?' !in segs[i]
  }

  lemma Join2(a: Bytes, b: Bytes, sep: Byte)
    ensures Join([a, b], sep) == a + [sep] + b
  {
    var ps: seq<Bytes> := [a, b];
    assert ps[1..] == [b];
  }

  lemma Join3(a: Bytes, b: Bytes, c: Bytes, sep: Byte)
    ensures Join([a, b, c], sep) == a + [sep] + b + [sep] + c
  {
    var ps: seq<Bytes> := [a, b, c];
    assert ps[1..] == [b, c];
    Join2(b, c, sep);
  }

  /** No byte but the separator is added by a join. */
  lemma {:induction false} JoinAvoids(pieces: seq<Bytes>, sep: Byte, c: Byte)
    requires c != sep && forall i | 0 <= i < |pieces| :: c !in pieces[i]
    ensures c !in Join(pieces, sep)
  {
    if |pieces| > 1 {
      JoinAvoids(pieces[1..], sep, c);
    }
  }

  /** A target with no `?`, written as its segments. */
  lemma PathOnly(s: Bytes, lead: Bytes, segs: seq<Bytes>)
    requires s == lead + Join(segs, '/')
    requires lead == [] || lead == ['/']
    requires |segs| >= 1 && (|segs| > 1 || segs[0] != [])
    requires lead == [] ==> segs[0] != []
    requires Clean(segs)
    ensures Raw.ParsePathAndQuery(s) == (segs, None)
  {
    JoinAvoids(segs, '/', '?');
    Raw.ParsePathOfPieces(s, lead, segs);
  }

  /** `/a/b` parses to the two segments. */
  lemma TwoSegmentsInput(s: Bytes, a: Bytes, b: Bytes)
    requires Plain(a) && Plain(b) && s == ['/'] + a + ['/'] + b
    ensures Raw.ParsePathAndQuery(s) == ([a, b], None)
  {
    PlainBytes(a);
    PlainBytes(b);
    Join2(a, b, '/');
    PathOnly(s, ['/'], [a, b]);
  }

  /** `/a/b/c` parses to the three segments. */
  lemma ThreeSegmentsInput(s: Bytes, a: Bytes, b: Bytes, c: Bytes)
    requires Plain(a) && Plain(b) && Plain(c) && s == ['/'] + a + ['/'] + b + ['/'] + c
    ensures Raw.ParsePathAndQuery(s) == ([a, b, c], None)
  {
    PlainBytes(a);
    PlainBytes(b);
    PlainBytes(c);
    Join3(a, b, c, '/');
    PathOnly(s, ['/'], [a, b, c]);
  }

  /** `/a/b/` parses to the two segments and a trailing empty one. */
  lemma TrailingSlashInput(s: Bytes, a: Bytes, b: Bytes)
    requires Plain(a) && Plain(b) && s == ['/'] + a + ['/'] + b + ['/']
    ensures Raw.ParsePathAndQuery(s) == ([a, b, []], None)
  {
    PlainBytes(a);
    PlainBytes(b);
    var segs: seq<Bytes> := [a, b, []];
    Join3(a, b, [], '/');
    assert a + ['/'] + b + ['/'] + [] == a + ['/'] + b + ['/'];
    assert Clean(segs);
    PathOnly(s, ['/'], segs);
  }

  /** `/a//b` parses to the two segments with an empty one between them. */
  lemma DoubleSlashInput(s: Bytes, a: Bytes, b: Bytes)
    requires Plain(a) && Plain(b) && s == ['/'] + a + ['/', '/'] + b
    ensures Raw.ParsePathAndQuery(s) == ([a, [], b], None)
  {
    PlainBytes(a);
    PlainBytes(b);
    var segs: seq<Bytes> := [a, [], b];
    Join3(a, [], b, '/');
    assert a + ['/'] + [] + ['/'] + b == a + ['/', '/'] + b;
    assert Clean(segs);
    PathOnly(s, ['/'], segs);
  }

  /** A query of one `key=value` pair. */
  lemma OnePair(q: Bytes, k: Bytes, v: Bytes)
    requires q == k + ['='] + v
    requires '=' !in k && '%' !in k && '&' !in k && '%' !in v && '&' !in v
    ensures Raw.ParseQuery(q) == [(k, Some(v))]
  {
    assert '&' !in q;
    assert Join([q], '&') == q;
    Raw.ParseQueryOfPieces(q, [q]);
    Raw.ParseQueryPairAt(q, k, v);
  }

  /** A query of one bare key. */
  lemma OneBareKey(q: Bytes)
    requires q != [] && '=' !in q && '%' !in q && '&' !in q
    ensures Raw.ParseQuery(q) == [(q, None)]
  {
    assert Join([q], '&') == q;
    Raw.ParseQueryOfPieces(q, [q]);
    Raw.ParseQueryPairBare(q);
  }

  /** A path of one segment, with or without the leading `/`. */
  lemma OneSegment(p: Bytes, lead: Bytes, seg: Bytes)
    requires p == lead + seg && (lead == [] || lead == ['/'])
    requires seg != [] && '/' !in seg && '%' !in seg
    ensures Raw.ParsePath(p) == [seg]
  {
    assert Join([seg], '/') == seg;
    Raw.ParsePathOfPieces(p, lead, [seg]);
  }

  /** `p?k=v` parses to one segment and one pair. */
  lemma OnePairInput(s: Bytes, p: Bytes, k: Bytes, v: Bytes)
    requires Plain(p) && Plain(k) && Plain(v) && s == p + ['?'] + k + ['='] + v
    ensures Raw.ParsePathAndQuery(s) == ([p], Some([(k, Some(v))]))
  {
    var q := k + ['='] + v;
    assert s == p + ['?'] + q;
    assert '?' !in p && Raw.ParsePath(p) == [p] by {
      PlainBytes(p);
      OneSegment(p, [], p);
    }
    assert Raw.ParseQuery(q) == [(k, Some(v))] by {
      PlainBytes(k);
      PlainBytes(v);
      OnePair(q, k, v);
    }
    Raw.ParsePathAndQueryAt(s, p, q);
  }

  /** `/a?k` parses to one segment and one bare key. */
  lemma BareKeyInput(s: Bytes, a: Bytes, k: Bytes)
    requires Plain(a) && Plain(k) && s == ['/'] + a + ['?'] + k
    ensures Raw.ParsePathAndQuery(s) == ([a], Some([(k, None)]))
  {
    PlainBytes(a);
    PlainBytes(k);
    var p := ['/'] + a;
    assert s == p + ['?'] + k;
    Raw.ParsePathAndQueryAt(s, p, k);
    OneSegment(p, ['/'], a);
    OneBareKey(k);
  }

  /** One segment the path set leaves alone renders as `/a`. */
  lemma OneSegmentText(a: Bytes)
    requires Raw.Encode(a, Raw.PathSet) == a
    ensures Raw.Render([a], None) == ['/'] + a
  {
    var path := [a];
    assert path[..0] == [];
    assert Raw.SegmentsText(path) == ['/'] + a;
  }

  /** Two plain segments render as `/a/b`. */
  lemma TwoSegmentsText(a: Bytes, b: Bytes)
    requires Plain(a) && Plain(b)
    ensures Raw.Render([a, b], None) == ['/'] + a + ['/'] + b
  {
    PlainEncodes(a);
    PlainEncodes(b);
    var path: seq<Bytes> := [a, b];
    assert path[..1] == [a] && path[..1][..0] == [];
    assert Raw.SegmentsText([a]) == ['/'] + a;
  }

  /** One segment and one pair render as `/p?k=v`. */
  lemma OnePairText(p: Bytes, k: Bytes, v: Bytes)
    requires Plain(p) && Plain(k) && Plain(v)
    ensures Raw.Render([p], Some([(k, Some(v))])) == ['/'] + p + ['?'] + k + ['='] + v
  {
    var path: seq<Bytes> := [p];
    var pairs: seq<Raw.QueryPair> := [(k, Some(v))];
    var head := Raw.SegmentsText(path);
    var tail := Raw.PairsText(pairs);
    assert head == ['/'] + p by {
      PlainEncodes(p);
      assert path[..0] == [];
    }
    assert tail == k + ['='] + v by {
      PlainEncodes(k);
      PlainEncodes(v);
    }
    assert Raw.Render(path, Some(pairs)) == head + ['?'] + tail by {
      RenderSome(path, pairs);
    }
    Concat6(head, tail, p, k, v);
  }

  /** With a non-empty segment text, the query follows it directly. */
  lemma RenderSome(path: seq<Bytes>, pairs: seq<Raw.QueryPair>)
    requires path != []
    ensures Raw.Render(path, Some(pairs)) == Raw.SegmentsText(path) + ['?'] + Raw.PairsText(pairs)
  {
  }

  lemma Concat6(head: Bytes, tail: Bytes, p: Bytes, k: Bytes, v: Bytes)
    requires head == ['/'] + p && tail == k + ['='] + v
    ensures head + ['?'] + tail == ['/'] + p + ['?'] + k + ['='] + v
  {
  }

}
