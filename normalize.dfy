/**
 * The path normaliser (`Normalization` with its one rule set, `NoTrailing`).
 *
 * Parsing: a path with an empty segment (from `//` or a trailing `/`) is not
 * canonical, and the result is the target to redirect to, rendered from the
 * non-empty segments. Otherwise a segment made only of dashes loses one dash.
 *
 * Rendering: a segment made only of dashes, the empty one included, gains one
 * dash, so that no rendered segment is empty and parsing undoes the escape.
 */
module Normalize {
  import opened Wrappers
  import opened Text
  import Raw

  /** A segment with no character other than `-`; the empty segment is one. */
  predicate AllDashes(s: Bytes)
  {
    forall i | 0 <= i < |s| :: s[i] == '-'
  }

  /** The segment of `n` dashes. */
  function Dashes(n: nat): (r: Bytes)
    ensures |r| == n && AllDashes(r)
  {
    seq(n, _ => '-')
  }

  /** `drop_one` on an all-dash segment, the identity on the others. */
  function Unescape(s: Bytes): Bytes
  {
    if AllDashes(s) && s != [] then s[..|s| - 1] else s
  }

  /** The per-segment render rule: one more dash on an all-dash segment. */
  function Escape(s: Bytes): Bytes
  {
    if AllDashes(s) then s + ['-'] else s
  }

  /** The segments with every empty one removed, order kept. */
  function NonEmpty(path: seq<Bytes>): (r: seq<Bytes>)
    ensures forall i | 0 <= i < |r| :: r[i] != []
    ensures forall s :: s in r <==> s in path && s != []
    ensures |r| <= |path|
  {
    if |path| == 0 then []
    else if path[0] == [] then NonEmpty(path[1..])
    else [path[0]] + NonEmpty(path[1..])
  }

  /** The filter works piecewise: the segments of `a`, then those of `b`, duplicates and order kept. */
  lemma {:induction false} NonEmptyAppend(a: seq<Bytes>, b: seq<Bytes>)
    ensures NonEmpty(a + b) == NonEmpty(a) + NonEmpty(b)
  {
    if a == [] {
      assert a + b == b;
    } else {
      assert (a + b)[1..] == a[1..] + b;
      NonEmptyAppend(a[1..], b);
    }
  }

  /** One segment is dropped exactly when it is empty. */
  lemma NonEmptyOne(s: Bytes)
    ensures NonEmpty([s]) == if s == [] then [] else [s]
  {
    assert [s][1..] == [];
  }

  /** A path with no empty segment is kept whole. */
  lemma {:induction false} NonEmptyKeeps(path: seq<Bytes>)
    requires [] !in path
    ensures NonEmpty(path) == path
  {
    if path != [] {
      assert path[0] in path;
      assert forall s | s in path[1..] :: s in path;
      NonEmptyKeeps(path[1..]);
    }
  }

  /** The result of `normalize_parse`: `Failure` carries the canonical target to redirect to. */
  function NormalizedParse(path: seq<Bytes>, query: Option<seq<Raw.QueryPair>>)
    : Result<(seq<Bytes>, Option<seq<Raw.QueryPair>>), Bytes>
  {
    if [] in path then Failure(Raw.Render(NonEmpty(path), query))
    else Success((seq(|path|, i requires 0 <= i < |path| => Unescape(path[i])), query))
  }

  /** The result of `normalize_render_path`. */
  function EscapePath(path: seq<Bytes>): seq<Bytes>
  {
    seq(|path|, i requires 0 <= i < |path| => Escape(path[i]))
  }

  /**
   * `normalize_parse`: collect the segments; if one is empty, render the
   * non-empty ones with the query; otherwise drop one dash from every
   * all-dash segment, in place.
   */
  method NormalizeParse(path: seq<Bytes>, query: Option<seq<Raw.QueryPair>>)
    returns (r: Result<(seq<Bytes>, Option<seq<Raw.QueryPair>>), Bytes>)
    ensures r == NormalizedParse(path, query)
  {
    var segs := path;
    if [] in segs {
      var target := Raw.RenderPathAndQuery(NonEmpty(segs), query);
      return Failure(target);
    }
    for i := 0 to |segs|
      invariant |segs| == |path|
      invariant forall j | 0 <= j < i :: segs[j] == Unescape(path[j])
      invariant forall j | i <= j < |segs| :: segs[j] == path[j]
    {
      if AllDashes(segs[i]) {
        assert segs[i] != [] by {
          assert path[i] in path;
        }
        segs := segs[i := segs[i][..|segs[i]| - 1]];
      }
    }
    assert segs == NormalizedParse(path, query).value.0;
    r := Success((segs, query));
  }

  /**
   * `normalize_render_path`: every all-dash segment, in place, becomes one dash
   * longer; the short ones are replaced by a fixed text, the longer ones pushed onto.
   */
  method NormalizeRenderPath(path: seq<Bytes>) returns (r: seq<Bytes>)
    ensures r == EscapePath(path)
  {
    r := path;
    for i := 0 to |r|
      invariant |r| == |path|
      invariant forall j | 0 <= j < i :: r[j] == Escape(path[j])
      invariant forall j | i <= j < |r| :: r[j] == path[j]
    {
      var seg := r[i];
      if AllDashes(seg) {
        DashesOfLength(seg);
        if |seg| == 0 {
          seg := "-";
        } else if |seg| == 1 {
          seg := "--";
        } else if |seg| == 2 {
          seg := "---";
        } else if |seg| == 3 {
          seg := "----";
        } else {
          seg := seg + ['-'];
        }
        DashesOfLength(seg);
        r := r[i := seg];
      }
    }
  }

  /** An all-dash segment is determined by its length. */
  lemma DashesOfLength(s: Bytes)
    requires AllDashes(s)
    ensures s == Dashes(|s|)
  {
  }

  // ---------------------------------------------------------------------------
  // Properties
  // ---------------------------------------------------------------------------

  /** Parsing fails exactly when some segment is empty, and then redirects to the render of the rest. */
  lemma ParseFailsIffEmptySegment(path: seq<Bytes>, query: Option<seq<Raw.QueryPair>>)
    ensures NormalizedParse(path, query).Failure? <==> exists i | 0 <= i < |path| :: path[i] == []
    ensures NormalizedParse(path, query).Failure? ==>
      NormalizedParse(path, query).error == Raw.Render(NonEmpty(path), query)
  {
    if [] in path {
      var i :| 0 <= i < |path| && path[i] == [];
    }
  }

  /**
   * On success the segment count and the query are kept, a segment with a
   * character other than `-` is kept, and an all-dash segment loses one dash.
   */
  lemma ParseSuccess(path: seq<Bytes>, query: Option<seq<Raw.QueryPair>>)
    requires NormalizedParse(path, query).Success?
    ensures var (p, q) := NormalizedParse(path, query).value;
      && |p| == |path| && q == query
      && forall i | 0 <= i < |path| ::
           if AllDashes(path[i]) then |path[i]| >= 1 && p[i] == Dashes(|path[i]| - 1)
           else p[i] == path[i]
  {
    forall i | 0 <= i < |path| && AllDashes(path[i])
      ensures |path[i]| >= 1
    {
      assert path[i] in path;
    }
  }

  /**
   * Rendering keeps the segment count, keeps every segment with a character
   * other than `-`, adds one dash to every all-dash one, and leaves no segment empty.
   */
  lemma RenderPathShape(path: seq<Bytes>)
    ensures |EscapePath(path)| == |path|
    ensures forall i | 0 <= i < |path| ::
      if AllDashes(path[i]) then EscapePath(path)[i] == Dashes(|path[i]| + 1)
      else EscapePath(path)[i] == path[i]
    ensures [] !in EscapePath(path)
  {
    var r := EscapePath(path);
    forall i | 0 <= i < |path| && AllDashes(path[i])
      ensures r[i] == Dashes(|path[i]| + 1)
    {
      DashesOfLength(r[i]);
    }
    forall i | 0 <= i < |r| ensures |r[i]| >= 1 {
    }
  }

  /** The dash escape is a bijection: parsing a rendered path gives it back, with the query. */
  lemma ParseRenderPath(path: seq<Bytes>, query: Option<seq<Raw.QueryPair>>)
    ensures NormalizedParse(EscapePath(path), query) == Success((path, query))
  {
    var r := EscapePath(path);
    RenderPathShape(path);
    var p := NormalizedParse(r, query).value.0;
    forall i | 0 <= i < |path| ensures p[i] == path[i] {
      if AllDashes(path[i]) {
        assert r[i] == path[i] + ['-'];
        assert AllDashes(r[i]);
        assert r[i][..|r[i]| - 1] == path[i];
      } else {
        assert !AllDashes(r[i]);
      }
    }
    assert p == path;
  }

  /** And the other way round: rendering what parsing accepted gives back the input segments. */
  lemma RenderParsePath(path: seq<Bytes>, query: Option<seq<Raw.QueryPair>>)
    requires NormalizedParse(path, query).Success?
    ensures EscapePath(NormalizedParse(path, query).value.0) == path
  {
    var p := NormalizedParse(path, query).value.0;
    var r := EscapePath(p);
    forall i | 0 <= i < |path| ensures r[i] == path[i] {
      assert path[i] in path;
      if AllDashes(path[i]) {
        assert p[i] == path[i][..|path[i]| - 1];
        assert AllDashes(p[i]);
        assert p[i] + ['-'] == path[i];
      } else {
        assert p[i] == path[i];
      }
    }
  }

  /** A run of `n` dashes renders as `n + 1` dashes, and parses back from them. */
  lemma DashRun(n: nat)
    ensures Escape(Dashes(n)) == Dashes(n + 1)
    ensures Unescape(Dashes(n + 1)) == Dashes(n)
  {
    DashesOfLength(Dashes(n) + ['-']);
    assert Dashes(n + 1)[..n] == Dashes(n);
  }
}
