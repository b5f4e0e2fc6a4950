/** The unit test of the normaliser, one case per lemma. */
module NormalizeExamples {
  import opened Wrappers
  import opened Text
  import Raw
  import opened Normalize

  lemma NoSegmentsExample()
    ensures NormalizedParse([], None) == Success(([], None))
  {
    var none: seq<Bytes> := [];
    assert NormalizedParse(none, None).value.0 == [];
  }

  lemma LoneEmptySegmentExample()
    ensures NormalizedParse([[]], None) == Failure("/")
  {
    var path: seq<Bytes> := [[]];
    assert path[0] == [];
    assert NonEmpty(path) == [];
  }

  lemma CanonicalExample(path: seq<Bytes>)
    requires path == ["foo", "bar"]
    ensures NormalizedParse(path, None) == Success((path, None))
  {
    assert path[0] != [] && path[1] != [];
    assert !AllDashes(path[0]) by { assert path[0][0] == 'f'; }
    assert !AllDashes(path[1]) by { assert path[1][0] == 'b'; }
    assert NormalizedParse(path, None).value.0 == path;
  }

  lemma TrailingSlashExample(path: seq<Bytes>)
    requires path == ["foo", "bar", []]
    ensures NormalizedParse(path, None) == Failure("/foo/bar")
  {
    assert path[2] == [];
    var kept: seq<Bytes> := ["foo", "bar"];
    assert NonEmpty(path) == kept by {
      var tail: seq<Bytes> := [[]];
      assert path[1..] == ["bar", []] && path[1..][1..] == tail;
      assert NonEmpty(tail) == [] by { assert tail[1..] == []; }
    }
    assert Raw.SegmentsText(kept) == "/foo/bar" by {
      assert kept[..1] == ["foo"] && kept[..1][..0] == [];
      Raw.EncodePlain("foo", Raw.PathSet);
      Raw.EncodePlain("bar", Raw.PathSet);
    }
  }

  lemma DashEscapeExamples()
    ensures Escape("") == "-"
    ensures Escape("-") == "--"
    ensures Escape("a-") == "a-"
  {
    assert !AllDashes("a-") by { assert "a-"[0] == 'a'; }
  }
}
