/**
 * Byte strings and the three `str` operations the codec is built on:
 * `find` (first occurrence), splitting at the first occurrence, and `split`.
 *
 * A Rust `&str` is modelled by its UTF-8 bytes, one `char` below 256 per byte.
 */
module Text {
  import opened Wrappers

  type Byte = c: char | c as int < 256
  type Bytes = seq<Byte>

  /** Index of the first occurrence of `c` in `s`, as `str::find` returns it. */
  function IndexOf(s: Bytes, c: Byte): (r: Option<nat>)
    ensures r.None? <==> c !in s
    ensures r.Some? ==> r.value < |s| && s[r.value] == c && c !in s[..r.value]
  {
    if |s| == 0 then None
    else if s[0] == c then Some(0)
    else match IndexOf(s[1..], c)
      case None => None
      case Some(i) =>
        assert s[1..][..i] == s[1..i + 1];
        assert s[..i + 1] == [s[0]] + s[1..][..i];
        Some(i + 1)
  }

  /** The text before and after the first `c`, or `None` when `s` has no `c`. */
  function SplitFirst(s: Bytes, c: Byte): (r: Option<(Bytes, Bytes)>)
    ensures r.None? <==> c !in s
    ensures r.Some? ==> s == r.value.0 + [c] + r.value.1 && c !in r.value.0
  {
    match IndexOf(s, c)
    case None => None
    case Some(i) =>
      assert s == s[..i] + [c] + s[i + 1..];
      Some((s[..i], s[i + 1..]))
  }

  /** The text with at most one leading `c` removed, as `str::strip_prefix(c).unwrap_or(s)`. */
  function StripPrefix(s: Bytes, c: Byte): (r: Bytes)
    ensures |s| > 0 && s[0] == c ==> [c] + r == s
    ensures (|s| == 0 || s[0] != c) ==> r == s
  {
    if |s| > 0 && s[0] == c then s[1..] else s
  }

  /** Splitting at the first `c` of a text whose head has no `c` finds that head. */
  lemma SplitFirstAt(a: Bytes, c: Byte, b: Bytes)
    requires c !in a
    ensures SplitFirst(a + [c] + b, c) == Some((a, b))
  {
    var s := a + [c] + b;
    assert s[..|a|] == a;
    assert s[|a|] == c;
    assert s[|a| + 1..] == b;
  }

  /** Pieces joined with `sep` in between; the inverse of `Split` for pieces without `sep`. */
  function Join(pieces: seq<Bytes>, sep: Byte): Bytes
  {
    if |pieces| == 0 then []
    else if |pieces| == 1 then pieces[0]
    else pieces[0] + [sep] + Join(pieces[1..], sep)
  }

  /** A join starts with its first piece, followed by the separator when there are more. */
  lemma JoinStart(pieces: seq<Bytes>, sep: Byte)
    requires |pieces| >= 1
    ensures |Join(pieces, sep)| >= |pieces[0]| && Join(pieces, sep)[..|pieces[0]|] == pieces[0]
    ensures |pieces| > 1 ==> |Join(pieces, sep)| > |pieces[0]| && Join(pieces, sep)[|pieces[0]|] == sep
  {
  }

  /** `str::split`: the pieces between occurrences of `sep`; the empty text gives one empty piece. */
  function Split(s: Bytes, sep: Byte): (r: seq<Bytes>)
    ensures |r| >= 1
    ensures Join(r, sep) == s
    ensures forall i | 0 <= i < |r| :: sep !in r[i]
    decreases |s|
  {
    match SplitFirst(s, sep)
    case None => [s]
    case Some((a, b)) =>
      var rest := Split(b, sep);
      assert ([a] + rest)[1..] == rest;
      [a] + rest
  }

  /** Splitting undoes joining, so `Split` is determined by its contract. */
  lemma {:induction false} SplitJoin(pieces: seq<Bytes>, sep: Byte)
    requires |pieces| >= 1
    requires forall i | 0 <= i < |pieces| :: sep !in pieces[i]
    ensures Split(Join(pieces, sep), sep) == pieces
  {
    if |pieces| > 1 {
      var rest := pieces[1..];
      SplitFirstAt(pieces[0], sep, Join(rest, sep));
      SplitJoin(rest, sep);
      assert pieces == [pieces[0]] + rest;
    }
  }

  /** Joining one more piece on the right. */
  lemma {:induction false} JoinSnoc(pieces: seq<Bytes>, sep: Byte, last: Bytes)
    requires |pieces| >= 1
    ensures Join(pieces + [last], sep) == Join(pieces, sep) + [sep] + last
  {
    if |pieces| > 1 {
      assert (pieces + [last])[1..] == pieces[1..] + [last];
      JoinSnoc(pieces[1..], sep, last);
    } else {
      assert (pieces + [last])[1..] == [last];
    }
  }

  /** The number of occurrences of `c` in `s`. */
  function Count(s: Bytes, c: Byte): nat
  {
    if |s| == 0 then 0 else (if s[0] == c then 1 else 0) + Count(s[1..], c)
  }

  lemma {:induction false} CountAppend(a: Bytes, b: Bytes, c: Byte)
    ensures Count(a + b, c) == Count(a, c) + Count(b, c)
  {
    if |a| > 0 {
      assert (a + b)[1..] == a[1..] + b;
      CountAppend(a[1..], b, c);
    } else {
      assert a + b == b;
    }
  }

  lemma {:induction false} CountAbsent(s: Bytes, c: Byte)
    requires c !in s
    ensures Count(s, c) == 0
  {
    if |s| > 0 {
      CountAbsent(s[1..], c);
    }
  }

  /** `split` yields one piece more than there are separators. */
  lemma {:induction false} SplitCount(s: Bytes, sep: Byte)
    ensures |Split(s, sep)| == Count(s, sep) + 1
    decreases |s|
  {
    match SplitFirst(s, sep)
    case None =>
      CountAbsent(s, sep);
    case Some((a, b)) =>
      SplitCount(b, sep);
      CountAppend(a + [sep], b, sep);
      CountAppend(a, [sep], sep);
      CountAbsent(a, sep);
      assert Count([sep], sep) == 1 by { assert [sep][1..] == []; }
  }
}
