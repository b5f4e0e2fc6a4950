/**
 * The wire codec: splitting a request target into percent-decoded path
 * segments and query pairs, and rendering them back (routetype/src/raw.rs).
 */
module Raw {
  import opened Wrappers
  import opened Text

  /** A decoded query pair: `None` means the key had no `=`, `Some([])` an `=` with nothing after it. */
  type QueryPair = (Bytes, Option<Bytes>)

  /** The two percent-encode sets of the renderer: QUERY_SET is the WHATWG query percent-encode set. */
  datatype EncodeSet = QuerySet | PathSet

  /**
   * Whether the encoder writes `b` as `%XX`: a non-ASCII byte always, an ASCII
   * byte when the set holds it (CONTROLS, space, `"#<>`, and for PATH_SET also `?`, backquote, `{}` and `/`).
   */
  predicate Escapes(es: EncodeSet, b: Byte)
  {
    || b as int >= 0x80
    || b as int < 0x20 || b as int == 0x7F
    || b == ' ' || b == '"' || b == '#' || b == '<' || b == '>'
    || (es == PathSet && (b == '?' || b == '`' || b == '{' || b == '}' || b == '/'))
  }

  /** The value of a hexadecimal digit in either case, as `char::to_digit(16)`. */
  function HexValue(c: Byte): (r: Option<nat>)
    ensures r.Some? ==> r.value < 16
  {
    if '0' <= c <= '9' then Some(c as int - '0' as int)
    else if 'a' <= c <= 'f' then Some(c as int - 'a' as int + 10)
    else if 'A' <= c <= 'F' then Some(c as int - 'A' as int + 10)
    else None
  }

  /** The upper-case digit the encoder writes for `n`. */
  function UpperHex(n: nat): (c: Byte)
    requires n < 16
    ensures HexValue(c) == Some(n)
  {
    if n < 10 then ('0' as int + n) as char else ('A' as int + n - 10) as char
  }

  function EncodeByte(es: EncodeSet, b: Byte): Bytes
  {
    if Escapes(es, b) then ['%', UpperHex(b as int / 16), UpperHex(b as int % 16)] else [b]
  }

  /** `utf8_percent_encode(s, es)`, concatenated. */
  function Encode(s: Bytes, es: EncodeSet): (r: Bytes)
    ensures |r| >= |s|
  {
    if |s| == 0 then [] else EncodeByte(es, s[0]) + Encode(s[1..], es)
  }

  /**
   * `percent_decode`: `%` followed by two hexadecimal digits becomes that byte;
   * any other `%` stays as it is.
   */
  function Decode(s: Bytes): Bytes
  {
    if |s| == 0 then []
    else if s[0] == '%' && |s| >= 3 && HexValue(s[1]).Some? && HexValue(s[2]).Some? then
      [(HexValue(s[1]).value * 16 + HexValue(s[2]).value) as char] + Decode(s[3..])
    else
      [s[0]] + Decode(s[1..])
  }

  /** Decoding gives back what was encoded, for text without a `%`. */
  lemma {:induction false} DecodeEncode(s: Bytes, es: EncodeSet)
    requires '%' !in s
    ensures Decode(Encode(s, es)) == s
  {
    if |s| > 0 {
      DecodeEncode(s[1..], es);
      var e := EncodeByte(es, s[0]);
      var rest := Encode(s[1..], es);
      var x := e + rest;
      if Escapes(es, s[0]) {
        var b := s[0] as int;
        assert x[0] == '%' && x[1] == UpperHex(b / 16) && x[2] == UpperHex(b % 16);
        assert x[3..] == rest;
        assert (b / 16) * 16 + b % 16 == b;
      } else {
        assert x[1..] == rest;
      }
    }
  }

  /**
   * A byte that is neither `%` nor a hexadecimal digit appears in the encoding
   * only where it appeared unescaped in the input.
   */
  lemma {:induction false} EncodeOmits(s: Bytes, es: EncodeSet, c: Byte)
    requires c != '%' && HexValue(c).None?
    requires Escapes(es, c) || c !in s
    ensures c !in Encode(s, es)
  {
    if |s| > 0 {
      EncodeOmits(s[1..], es, c);
    }
  }

  /** Every byte of PATH_SET is escaped, so an encoded segment holds no raw `/` or `?`. */
  lemma EncodedSegmentHasNoSeparator(s: Bytes)
    ensures '/' !in Encode(s, PathSet) && '?' !in Encode(s, PathSet)
  {
    EncodeOmits(s, PathSet, '/');
    EncodeOmits(s, PathSet, '?');
  }

  /** Hex digits decode in either case: two escapes whose digits have the same values decode alike. */
  lemma DecodeIgnoresHexCase(a: Bytes, hi: Byte, lo: Byte, hi2: Byte, lo2: Byte, b: Bytes)
    requires '%' !in a && '%' !in b && HexValue(hi).Some? && HexValue(lo).Some?
    requires HexValue(hi2) == HexValue(hi) && HexValue(lo2) == HexValue(lo)
    ensures Decode(a + ['%', hi, lo] + b) == Decode(a + ['%', hi2, lo2] + b)
  {
    DecodeEscape(a, hi, lo, b);
    DecodeEscape(a, hi2, lo2, b);
  }

  // ---------------------------------------------------------------- parsing

  /** The still encoded segments of `parse_path`: the `/`-separated pieces after one leading `/`. */
  function RawSegments(p: Bytes): (r: seq<Bytes>)
    ensures StripPrefix(p, '/') == [] <==> r == []
    ensures r != [] ==> Join(r, '/') == StripPrefix(p, '/')
    ensures forall i | 0 <= i < |r| :: '/' !in r[i]
  {
    var rest := StripPrefix(p, '/');
    if rest == [] then [] else Split(rest, '/')
  }

  /** A non-empty path has one segment more than it has `/` after the leading one. */
  lemma SegmentCount(p: Bytes)
    requires StripPrefix(p, '/') != []
    ensures |ParsePath(p)| == Count(StripPrefix(p, '/'), '/') + 1
  {
    SplitCount(StripPrefix(p, '/'), '/');
  }

  /** `parse_path`: the percent-decoded segments of the path. */
  function ParsePath(p: Bytes): (r: seq<Bytes>)
    ensures |r| == |RawSegments(p)|
    ensures forall i | 0 <= i < |r| :: r[i] == Decode(RawSegments(p)[i])
  {
    var raw := RawSegments(p);
    seq(|raw|, i requires 0 <= i < |raw| => Decode(raw[i]))
  }

  /** `parse_query_pair`: split at the first `=`, if any, and decode both sides. */
  function ParseQueryPair(pair: Bytes): (r: QueryPair)
    ensures r.1.None? <==> '=' !in pair
    ensures r.1.None? ==> r.0 == Decode(pair)
    ensures r.1.Some? ==>
      var (k, v) := SplitFirst(pair, '=').value;
      r.0 == Decode(k) && r.1.value == Decode(v)
  {
    match SplitFirst(pair, '=')
    case None => (Decode(pair), None)
    case Some((k, v)) => (Decode(k), Some(Decode(v)))
  }

  /** `parse_query`: no pairs for the empty query, otherwise one pair per `&`-separated piece. */
  function ParseQuery(q: Bytes): (r: seq<QueryPair>)
    ensures q == [] ==> r == []
    ensures q != [] ==> |r| == |Split(q, '&')|
    ensures q != [] ==> forall i | 0 <= i < |r| :: r[i] == ParseQueryPair(Split(q, '&')[i])
  {
    if q == [] then []
    else
      var pieces := Split(q, '&');
      seq(|pieces|, i requires 0 <= i < |pieces| => ParseQueryPair(pieces[i]))
  }

  /** A non-empty query has one pair more than it has `&`. */
  lemma PairCount(q: Bytes)
    requires q != []
    ensures |ParseQuery(q)| == Count(q, '&') + 1
  {
    SplitCount(q, '&');
  }

  /** `parse_path_and_query`: split at the first `?`; the query is absent exactly when there is no `?`. */
  function ParsePathAndQuery(s: Bytes): (r: (seq<Bytes>, Option<seq<QueryPair>>))
    ensures r.1.None? <==> '?' !in s
    ensures r.1.None? ==> r.0 == ParsePath(s)
    ensures r.1.Some? ==>
      var (p, q) := SplitFirst(s, '?').value;
      r.0 == ParsePath(p) && r.1.value == ParseQuery(q)
  {
    match SplitFirst(s, '?')
    case None => (ParsePath(s), None)
    case Some((p, q)) => (ParsePath(p), Some(ParseQuery(q)))
  }

  /** A target with a `?`: the path is what comes before the first one, the query what follows it. */
  lemma ParsePathAndQueryAt(s: Bytes, p: Bytes, q: Bytes)
    requires s == p + ['?'] + q && '?' !in p
    ensures ParsePathAndQuery(s) == (ParsePath(p), Some(ParseQuery(q)))
  {
    SplitFirstAt(p, '?', q);
  }

  /** Decoding leaves text without `%` unchanged. */
  lemma {:induction false} DecodePlain(s: Bytes)
    requires '%' !in s
    ensures Decode(s) == s
  {
    if |s| > 0 {
      DecodePlain(s[1..]);
    }
  }

  /** A prefix without `%` passes through decoding untouched. */
  lemma {:induction false} DecodePlainPrefix(a: Bytes, t: Bytes)
    requires '%' !in a
    ensures Decode(a + t) == a + Decode(t)
  {
    if |a| > 0 {
      assert a[0] in a;
      assert (a + t)[1..] == a[1..] + t;
      calc {
        Decode(a + t);
        [a[0]] + Decode(a[1..] + t);
        { DecodePlainPrefix(a[1..], t); }
        [a[0]] + (a[1..] + Decode(t));
        { assert a == [a[0]] + a[1..]; }
        a + Decode(t);
      }
    } else {
      assert a + t == t;
    }
  }

  /** An escape `%hl` in the middle of plain text decodes to the byte `16*h + l`, in either letter case. */
  lemma DecodeEscape(a: Bytes, hi: Byte, lo: Byte, b: Bytes)
    requires '%' !in a && '%' !in b && HexValue(hi).Some? && HexValue(lo).Some?
    ensures Decode(a + ['%', hi, lo] + b) == a + [(HexValue(hi).value * 16 + HexValue(lo).value) as char] + b
  {
    var t := ['%', hi, lo] + b;
    var ch := (HexValue(hi).value * 16 + HexValue(lo).value) as char;
    assert a + ['%', hi, lo] + b == a + t;
    DecodePlainPrefix(a, t);
    assert Decode(t) == [ch] + Decode(b) by {
      assert t[0] == '%' && t[1] == hi && t[2] == lo && t[3..] == b;
    }
    DecodePlain(b);
    assert a + ([ch] + b) == a + [ch] + b;
  }

  /** The segments of a path written as plain pieces joined by `/`, with or without a leading `/`. */
  lemma ParsePathOfPieces(p: Bytes, lead: Bytes, pieces: seq<Bytes>)
    requires p == lead + Join(pieces, '/')
    requires lead == [] || lead == ['/']
    requires |pieces| >= 1 && (|pieces| > 1 || pieces[0] != [])
    requires lead == [] ==> pieces[0] != []
    requires forall i | 0 <= i < |pieces| :: '/' !in pieces[i] && '%' !in pieces[i]
    ensures ParsePath(p) == pieces
  {
    var j := Join(pieces, '/');
    JoinStart(pieces, '/');
    StripOneSlash(lead, j);
    RawSegmentsOfJoin(lead + j, pieces);
    ParsePathOfPlain(lead + j, pieces);
  }

  lemma StripOneSlash(lead: Bytes, j: Bytes)
    requires lead == [] || lead == ['/']
    requires lead == [] ==> j == [] || j[0] != '/'
    ensures StripPrefix(lead + j, '/') == j
  {
    if lead != [] {
      assert (lead + j)[1..] == j;
    } else {
      assert lead + j == j;
    }
  }

  lemma RawSegmentsOfJoin(p: Bytes, pieces: seq<Bytes>)
    requires |pieces| >= 1 && StripPrefix(p, '/') == Join(pieces, '/') != []
    requires forall i | 0 <= i < |pieces| :: '/' !in pieces[i]
    ensures RawSegments(p) == pieces
  {
    SplitJoin(pieces, '/');
  }

  lemma ParsePathOfPlain(p: Bytes, pieces: seq<Bytes>)
    requires RawSegments(p) == pieces
    requires forall i | 0 <= i < |pieces| :: '%' !in pieces[i]
    ensures ParsePath(p) == pieces
  {
    var r := ParsePath(p);
    forall i | 0 <= i < |pieces| ensures r[i] == pieces[i] {
      DecodePlain(pieces[i]);
    }
  }

  /** A pair with an `=` splits at its first `=`. */
  lemma ParseQueryPairAt(pair: Bytes, k: Bytes, v: Bytes)
    requires pair == k + ['='] + v && '=' !in k && '%' !in k && '%' !in v
    ensures ParseQueryPair(pair) == (k, Some(v))
  {
    SplitFirstAt(k, '=', v);
    DecodePlain(k);
    DecodePlain(v);
  }

  /** A pair without `=` is a bare key. */
  lemma ParseQueryPairBare(pair: Bytes)
    requires '=' !in pair && '%' !in pair
    ensures ParseQueryPair(pair) == (pair, None)
  {
    DecodePlain(pair);
  }

  /** A query written as `&`-joined pieces parses piece by piece. */
  lemma ParseQueryOfPieces(q: Bytes, pieces: seq<Bytes>)
    requires |pieces| >= 1 && q == Join(pieces, '&') != []
    requires forall i | 0 <= i < |pieces| :: '&' !in pieces[i]
    ensures |ParseQuery(q)| == |pieces|
    ensures forall i | 0 <= i < |pieces| :: ParseQuery(q)[i] == ParseQueryPair(pieces[i])
  {
    SplitJoin(pieces, '&');
  }

  // ---------------------------------------------------------------------------
  // Rendering: `render_path_and_query`
  // ---------------------------------------------------------------------------

  /** Each segment preceded by `/` and encoded with the path set; empty for no segments. */
  function SegmentsText(path: seq<Bytes>): (r: Bytes)
    ensures path == [] <==> r == []
    ensures r != [] ==> r[0] == '/'
  {
    if |path| == 0 then []
    else
      var init := SegmentsText(path[..|path| - 1]);
      init + ['/'] + Encode(path[|path| - 1], PathSet)
  }

  /** A pair as `key`, or `key=value` when a value is present, both encoded with the query set. */
  function PairText(pair: QueryPair): Bytes
  {
    Encode(pair.0, QuerySet) + if pair.1.Some? then ['='] + Encode(pair.1.value, QuerySet) else []
  }

  /** A rendered pair has an `=` exactly when it has a value or its key has one. */
  lemma PairTextEquals(pair: QueryPair)
    ensures '=' in PairText(pair) <==> pair.1.Some? || '=' in pair.0
  {
    EncodeEquals(pair.0);
    if pair.1.Some? {
      assert PairText(pair)[|Encode(pair.0, QuerySet)|] == '=';
    }
  }

  /** The pairs' texts with `&` between consecutive ones. */
  function PairsText(pairs: seq<QueryPair>): Bytes
  {
    if |pairs| == 0 then []
    else if |pairs| == 1 then PairText(pairs[0])
    else PairsText(pairs[..|pairs| - 1]) + ['&'] + PairText(pairs[|pairs| - 1])
  }

  /**
   * The rendered request target: the segments (or a lone `/` when they render
   * to nothing), then `?` and the pairs exactly when a query is given.
   */
  function Render(path: seq<Bytes>, query: Option<seq<QueryPair>>): (r: Bytes)
    ensures |r| >= 1 && r[0] == '/'
    ensures '?' in r <==> query.Some?
  {
    var p := SegmentsText(path);
    var head := if p == [] then ['/'] else p;
    SegmentsOmitQuestion(path);
    if query.Some? then
      var r := head + ['?'] + PairsText(query.value);
      assert r[|head|] == '?';
      r
    else head
  }

  /** `render_path_and_query`, appending to one buffer in a segment loop and a query loop. */
  method RenderPathAndQuery(path: seq<Bytes>, query: Option<seq<QueryPair>>) returns (res: Bytes)
    ensures res == Render(path, query)
  {
    res := [];
    for i := 0 to |path|
      invariant res == SegmentsText(path[..i])
    {
      assert path[..i + 1][..i] == path[..i];
      res := res + ['/'];
      res := res + Encode(path[i], PathSet);
    }
    assert path[..|path|] == path;
    if res == [] {
      res := res + ['/'];
    }
    if query.Some? {
      res := res + ['?'];
      res := AppendPairs(res, query.value);
    }
  }

  /** The query loop of `render_path_and_query`: a `first` flag decides whether `&` goes before a pair. */
  method AppendPairs(head: Bytes, pairs: seq<QueryPair>) returns (res: Bytes)
    ensures res == head + PairsText(pairs)
  {
    res := head;
    var first := true;
    for i := 0 to |pairs|
      invariant first <==> i == 0
      invariant res == head + PairsText(pairs[..i])
    {
      ghost var sep: Bytes := if i == 0 then [] else ['&'];
      ghost var done := PairsText(pairs[..i]);
      if first {
        first := false;
      } else {
        res := res + ['&'];
      }
      ghost var mid := res;
      var (key, value) := pairs[i];
      res := res + Encode(key, QuerySet);
      if value.Some? {
        res := res + ['='];
        res := res + Encode(value.value, QuerySet);
      }
      assert res == mid + PairText(pairs[i]) by {
        PairPushed(mid, pairs[i], res);
      }
      assert res == head + PairsText(pairs[..i + 1]) by {
        PairsTextSnoc(pairs, i);
        AppendAssoc(head, done, sep, PairText(pairs[i]));
      }
    }
    assert pairs[..|pairs|] == pairs;
  }

  /** Text the set never escapes is written as it is. */
  lemma {:induction false} EncodePlain(s: Bytes, es: EncodeSet)
    requires forall i | 0 <= i < |s| :: !Escapes(es, s[i])
    ensures Encode(s, es) == s
  {
    if |s| > 0 {
      EncodePlain(s[1..], es);
    }
  }

  /** A byte the set escapes, followed by plain text, is written as `%` and two upper-case digits. */
  lemma EncodeEscaped(b: Byte, c: Bytes, es: EncodeSet)
    requires Escapes(es, b)
    requires forall i | 0 <= i < |c| :: !Escapes(es, c[i])
    ensures Encode([b] + c, es) == ['%', UpperHex(b as int / 16), UpperHex(b as int % 16)] + c
  {
    var t := [b] + c;
    assert t[0] == b && t[1..] == c;
    EncodePlain(c, es);
  }

  /** A prefix the set never escapes is written as it is. */
  lemma EncodePlainPrefix(a: Bytes, t: Bytes, es: EncodeSet)
    requires forall i | 0 <= i < |a| :: !Escapes(es, a[i])
    ensures Encode(a + t, es) == a + Encode(t, es)
  {
    EncodeAppend(a, t, es);
    EncodePlain(a, es);
  }

  /** Encoding works byte by byte, so it distributes over concatenation. */
  lemma {:induction false} EncodeAppend(s: Bytes, t: Bytes, es: EncodeSet)
    ensures Encode(s + t, es) == Encode(s, es) + Encode(t, es)
  {
    if |s| == 0 {
      assert s + t == t;
    } else {
      assert (s + t)[0] == s[0] && (s + t)[1..] == s[1..] + t;
      EncodeAppend(s[1..], t, es);
    }
  }

  /** Encoding keeps a byte the set does not escape. */
  lemma {:induction false} EncodeKeeps(s: Bytes, es: EncodeSet, c: Byte)
    requires !Escapes(es, c) && c in s
    ensures c in Encode(s, es)
  {
    if s[0] == c {
      assert Encode(s, es)[0] == c;
    } else {
      EncodeKeeps(s[1..], es, c);
    }
  }

  /** No rendered segment text contains `?`: the path set escapes it. */
  lemma {:induction false} SegmentsOmitQuestion(path: seq<Bytes>)
    ensures '?' !in SegmentsText(path)
  {
    if |path| > 0 {
      SegmentsOmitQuestion(path[..|path| - 1]);
      EncodeOmits(path[|path| - 1], PathSet, '?');
    }
  }

  /** The query set leaves `=` alone, so encoding neither adds nor removes one. */
  lemma EncodeEquals(s: Bytes)
    ensures '=' in Encode(s, QuerySet) <==> '=' in s
  {
    if '=' in s {
      EncodeKeeps(s, QuerySet, '=');
    } else {
      EncodeOmits(s, QuerySet, '=');
    }
  }

  /** Extending the rendered pairs by one pair adds `&` (except before the first) and that pair. */
  lemma PairsTextSnoc(pairs: seq<QueryPair>, i: nat)
    requires i < |pairs|
    ensures PairsText(pairs[..i + 1]) == PairsText(pairs[..i]) + (if i == 0 then [] else ['&']) + PairText(pairs[i])
  {
    assert pairs[..i + 1][..i] == pairs[..i];
    assert pairs[..i + 1][i] == pairs[i];
  }

  /** The bytes one pass of the query loop pushes are the pair's text. */
  lemma PairPushed(mid: Bytes, pair: QueryPair, res: Bytes)
    requires pair.1.Some? ==> res == mid + Encode(pair.0, QuerySet) + ['='] + Encode(pair.1.value, QuerySet)
    requires pair.1.None? ==> res == mid + Encode(pair.0, QuerySet)
    ensures res == mid + PairText(pair)
  {
  }

  lemma AppendAssoc(a: Bytes, b: Bytes, c: Bytes, d: Bytes)
    ensures a + b + c + d == a + (b + c + d)
  {
  }

  // ---------------------------------------------------------------------------
  // The round trip: parsing a rendered target gives back the path and query
  // ---------------------------------------------------------------------------

  /** A key survives the round trip when it has no `%` (decoding would eat it) and no `&` or `=` (splitting would). */
  predicate SafeKey(k: Bytes)
  {
    '%' !in k && '&' !in k && '=' !in k
  }

  /** A value may hold `=`, since a pair splits at its first `=` only. */
  predicate SafeValue(v: Bytes)
  {
    '%' !in v && '&' !in v
  }

  /**
   * Pairs that survive the round trip. The single bare empty key is out:
   * it renders to nothing, and an empty query parses to no pairs.
   */
  predicate SafeQuery(pairs: seq<QueryPair>)
  {
    && (forall i | 0 <= i < |pairs| :: SafeKey(pairs[i].0) && (pairs[i].1.Some? ==> SafeValue(pairs[i].1.value)))
    && pairs != [([], None)]
  }

  /** Segments survive the round trip when none holds `%`, except the lone empty segment, which renders as `/`. */
  predicate SafePath(path: seq<Bytes>)
  {
    && (forall i | 0 <= i < |path| :: '%' !in path[i])
    && path != [[]]
  }

  function EncodedSegments(path: seq<Bytes>): (r: seq<Bytes>)
    ensures |r| == |path| && forall i | 0 <= i < |r| :: r[i] == Encode(path[i], PathSet)
  {
    seq(|path|, i requires 0 <= i < |path| => Encode(path[i], PathSet))
  }

  function PairTexts(pairs: seq<QueryPair>): (r: seq<Bytes>)
    ensures |r| == |pairs| && forall i | 0 <= i < |r| :: r[i] == PairText(pairs[i])
  {
    seq(|pairs|, i requires 0 <= i < |pairs| => PairText(pairs[i]))
  }

  /** The segment text is a `/` followed by the encoded segments joined by `/`. */
  lemma {:induction false} SegmentsTextJoin(path: seq<Bytes>)
    requires |path| >= 1
    ensures SegmentsText(path) == ['/'] + Join(EncodedSegments(path), '/')
  {
    var n := |path|;
    var init := path[..n - 1];
    var last := Encode(path[n - 1], PathSet);
    assert SegmentsText(path) == SegmentsText(init) + ['/'] + last;
    if n == 1 {
      assert init == [];
      assert EncodedSegments(path) == [last];
    } else {
      SegmentsTextJoin(init);
      assert EncodedSegments(path) == EncodedSegments(init) + [last];
      JoinSnoc(EncodedSegments(init), '/', last);
      AppendAssoc(['/'], Join(EncodedSegments(init), '/'), ['/'], last);
    }
  }

  /** The pair text is the rendered pairs joined by `&`. */
  lemma {:induction false} PairsTextJoin(pairs: seq<QueryPair>)
    requires |pairs| >= 1
    ensures PairsText(pairs) == Join(PairTexts(pairs), '&')
  {
    var n := |pairs|;
    var init := pairs[..n - 1];
    if n == 1 {
      assert PairTexts(pairs) == [PairText(pairs[0])];
    } else {
      PairsTextJoin(init);
      assert PairTexts(pairs) == PairTexts(init) + [PairText(pairs[n - 1])];
      JoinSnoc(PairTexts(init), '&', PairText(pairs[n - 1]));
    }
  }

  /** The path part of a rendered target parses back to the segments. */
  lemma ParsePathRender(path: seq<Bytes>)
    requires SafePath(path)
    ensures ParsePath(if SegmentsText(path) == [] then ['/'] else SegmentsText(path)) == path
  {
    if |path| > 0 {
      var p := SegmentsText(path);
      var enc := EncodedSegments(path);
      SegmentsTextJoin(path);
      forall i | 0 <= i < |enc| ensures '/' !in enc[i] {
        EncodeOmits(path[i], PathSet, '/');
      }
      if |enc| == 1 {
        assert path[0] != [];
      } else {
        JoinStart(enc, '/');
      }
      assert StripPrefix(p, '/') == Join(enc, '/');
      RawSegmentsOfJoin(p, enc);
      forall i | 0 <= i < |path| ensures ParsePath(p)[i] == path[i] {
        DecodeEncode(path[i], PathSet);
      }
    }
  }

  /** A safe pair parses back from its text, which holds no `&`. */
  lemma ParseQueryPairRender(pair: QueryPair)
    requires SafeKey(pair.0) && (pair.1.Some? ==> SafeValue(pair.1.value))
    ensures '&' !in PairText(pair)
    ensures ParseQueryPair(PairText(pair)) == pair
  {
    var k := Encode(pair.0, QuerySet);
    EncodeOmits(pair.0, QuerySet, '=');
    EncodeOmits(pair.0, QuerySet, '&');
    DecodeEncode(pair.0, QuerySet);
    if pair.1.Some? {
      var v := Encode(pair.1.value, QuerySet);
      EncodeOmits(pair.1.value, QuerySet, '&');
      DecodeEncode(pair.1.value, QuerySet);
      assert PairText(pair) == k + ['='] + v;
      SplitFirstAt(k, '=', v);
      assert ParseQueryPair(k + ['='] + v) == (pair.0, Some(pair.1.value));
    } else {
      assert PairText(pair) == k;
    }
  }

  /** The query part of a rendered target parses back to the pairs. */
  lemma ParseQueryRender(pairs: seq<QueryPair>)
    requires SafeQuery(pairs)
    ensures ParseQuery(PairsText(pairs)) == pairs
  {
    if |pairs| > 0 {
      var q := PairsText(pairs);
      var texts := PairTexts(pairs);
      PairsTextJoin(pairs);
      forall i | 0 <= i < |pairs| ensures '&' !in texts[i] && ParseQueryPair(texts[i]) == pairs[i] {
        ParseQueryPairRender(pairs[i]);
      }
      if |pairs| == 1 {
        PairTextEquals(pairs[0]);
        assert '=' in texts[0] || texts[0] != [] by {
          assert pairs[0].1.Some? || pairs[0].0 != [];
        }
      } else {
        JoinStart(texts, '&');
      }
      ParseQueryOfPieces(q, texts);
    }
  }

  /**
   * Rendering then parsing gives back the segments and the query, for
   * segments without `%` and a query whose keys avoid `%`, `&`, `=` and
   * whose values avoid `%`, `&`.
   */
  lemma ParseRender(path: seq<Bytes>, query: Option<seq<QueryPair>>)
    requires SafePath(path)
    requires query.Some? ==> SafeQuery(query.value)
    ensures ParsePathAndQuery(Render(path, query)) == (path, query)
  {
    var p := SegmentsText(path);
    var head := if p == [] then ['/'] else p;
    SegmentsOmitQuestion(path);
    ParsePathRender(path);
    if query.Some? {
      SplitFirstAt(head, '?', PairsText(query.value));
      ParseQueryRender(query.value);
    }
  }
}
