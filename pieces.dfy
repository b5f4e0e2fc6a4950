/**
 * `RoutePiece`: the values a path segment or a query value can hold, each
 * parsed from and rendered to one piece of text. `String` passes text
 * through, `bool` is `true`/`false`, and `i32` follows Rust's integer syntax:
 * an optional sign, then one or more decimal digits, in the 32-bit range.
 */
module Pieces {
  import opened Wrappers
  import opened Text

  const I32_MIN: int := -0x8000_0000
  const I32_MAX: int := 0x7FFF_FFFF

  /** Rust's `i32`. */
  type I32 = x: int | I32_MIN <= x <= I32_MAX

  /** Which of the three piece types a field or placeholder has. */
  datatype PieceKind = TextKind | I32Kind | BoolKind

  /** A parsed piece. */
  datatype Piece = Text(text: Bytes) | Int(number: I32) | Bool(flag: bool)
  {
    function Kind(): PieceKind
    {
      match this
      case Text(_) => TextKind
      case Int(_) => I32Kind
      case Bool(_) => BoolKind
    }
  }

  predicate IsDigit(c: Byte)
  {
    '0' <= c <= '9'
  }

  predicate AllDigits(s: Bytes)
  {
    forall i | 0 <= i < |s| :: IsDigit(s[i])
  }

  /** The number a string of decimal digits denotes, leading zeros allowed. */
  function DigitsValue(s: Bytes): nat
    requires AllDigits(s)
  {
    if |s| == 0 then 0
    else DigitsValue(s[..|s| - 1]) * 10 + (s[|s| - 1] as int - '0' as int)
  }

  /** The decimal digits of `n`, without leading zeros (`0` is `"0"`). */
  function NatDigits(n: nat): (r: Bytes)
    ensures |r| >= 1 && AllDigits(r)
    ensures DigitsValue(r) == n
    ensures |r| > 1 ==> r[0] != '0'
  {
    var last := ('0' as int + n % 10) as char;
    if n < 10 then [last]
    else
      var init := NatDigits(n / 10);
      var r := init + [last];
      assert r[..|r| - 1] == init;
      r
  }

  /** `i32::from_str`: an optional `+` or `-`, at least one digit, nothing else, and no overflow. */
  function ParseI32(s: Bytes): (r: Option<I32>)
  {
    if |s| == 0 then None
    else
      var negative := s[0] == '-';
      var digits := if s[0] == '-' || s[0] == '+' then s[1..] else s;
      if |digits| == 0 || !AllDigits(digits) then None
      else
        var v: int := if negative then 0 - DigitsValue(digits) else DigitsValue(digits);
        if I32_MIN <= v <= I32_MAX then Some(v) else None
  }

  /** `i32::to_string`: a `-` for negative values, then the digits of the magnitude. */
  function RenderI32(v: I32): Bytes
  {
    var m: int := v;
    if m < 0 then ['-'] + NatDigits(-m) else NatDigits(m)
  }

  /** `bool` parses exactly `true` and `false`. */
  function ParseBool(s: Bytes): (r: Option<bool>)
    ensures r.Some? <==> s == "true" || s == "false"
    ensures r == Some(true) <==> s == "true"
  {
    if s == "true" then Some(true)
    else if s == "false" then Some(false)
    else None
  }

  function RenderBool(b: bool): Bytes
  {
    if b then "true" else "false"
  }

  /** `RoutePiece::parse_route_piece` for the piece type `kind`. */
  function ParsePiece(kind: PieceKind, s: Bytes): (r: Option<Piece>)
    ensures r.Some? ==> r.value.Kind() == kind
    ensures kind == TextKind ==> r == Some(Text(s))
  {
    match kind
    case TextKind => Some(Text(s))
    case I32Kind => (match ParseI32(s) case Some(v) => Some(Int(v)) case None => None)
    case BoolKind => (match ParseBool(s) case Some(b) => Some(Bool(b)) case None => None)
  }

  /** `RoutePiece::render_route_piece`. */
  function RenderPiece(p: Piece): Bytes
  {
    match p
    case Text(s) => s
    case Int(v) => RenderI32(v)
    case Bool(b) => RenderBool(b)
  }

  // ---------------------------------------------------------------------------
  // Properties
  // ---------------------------------------------------------------------------

  /** Rendering an `i32` then parsing it gives the same value. */
  lemma I32RoundTrip(v: I32)
    ensures ParseI32(RenderI32(v)) == Some(v)
  {
    var s := RenderI32(v);
    if v < 0 {
      var m: int := v;
      assert s[1..] == NatDigits(-m);
    } else {
      assert s[0] != '-' && s[0] != '+' by {
        assert IsDigit(NatDigits(v)[0]);
      }
    }
  }

  /** Text that is not a number, such as `fortytwo`, does not parse as an `i32`. */
  lemma I32RejectsWords()
    ensures ParseI32("fortytwo") == None
    ensures ParseI32("") == None
    ensures ParseI32("-") == None
    ensures ParseI32("+") == None
  {
    assert !IsDigit("fortytwo"[0]);
  }

  lemma I32Examples()
    ensures ParseI32("42") == Some(42)
    ensures ParseI32("+7") == Some(7)
    ensures ParseI32("-0") == Some(0)
    ensures RenderI32(42) == "42"
  {
    assert "42"[..1] == "4";
    assert "+7"[1..] == "7";
    assert "-0"[1..] == "0";
    assert NatDigits(4) == "4";
  }

  /** Values out of the 32-bit range are refused. */
  lemma I32Overflow()
    ensures ParseI32(NatDigits(I32_MAX + 1)) == None
  {
    var s := NatDigits(I32_MAX + 1);
    assert IsDigit(s[0]);
  }

  /** Rendering a `bool` then parsing it gives the same value. */
  lemma BoolRoundTrip(b: bool)
    ensures ParseBool(RenderBool(b)) == Some(b)
  {
  }

  /** The `String` piece is the identity both ways. */
  lemma TextIdentity(s: Bytes)
    ensures ParsePiece(TextKind, s) == Some(Text(s)) && RenderPiece(Text(s)) == s
  {
  }

  /** Any piece renders to text that parses back, under its own kind, to that piece. */
  lemma PieceRoundTrip(p: Piece)
    ensures ParsePiece(p.Kind(), RenderPiece(p)) == Some(p)
  {
    match p
    case Text(_) =>
    case Int(v) => I32RoundTrip(v);
    case Bool(b) => BoolRoundTrip(b);
  }
}
