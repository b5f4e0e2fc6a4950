# routetype, modelled in Dafny

`routetype` turns a request target such as `/hello/alice?page=2` into a
typed route value and renders a route value back to a target. This project
models the core of that crate. It also proves what the crate promises about
parsing, normalising, rendering and matching.

The model has four parts.

- **Wire codec** (module `Raw`, over the string helpers in `Text`).
  - A target splits at its first `?`.
  - The path splits on `/` after at most one leading `/`.
  - The query splits on `&`, and each pair splits at its first `=`.
  - Every piece is percent-decoded.
  - The renderer writes `/` before each segment, or a lone `/` when there are no segments. It writes `?` only when a query is given, joins pairs with `&`, and writes `=` only for pairs that have a value.
  - Segments are encoded with `PATH_SET` and pairs with `QUERY_SET`. `QUERY_SET` is the query percent-encode set of the WHATWG URL Standard.
  - `render_path_and_query` appends to one buffer in two loops, so it is a method (`Raw.RenderPathAndQuery`, `Raw.AppendPairs`). Both are proved equal to the function `Raw.Render`.
- **Normaliser** (`Normalize`).
  - An empty segment makes a path non-canonical. The result is then the redirect target, rendered from the non-empty segments and the query.
  - Otherwise every all-dash segment loses one `-`. Rendering adds one `-` to every all-dash segment, the empty one included.
  - Both directions rewrite a vector in place, so they are methods proved equal to `Normalize.NormalizedParse` and `Normalize.EscapePath`.
  - The dash escape is proved to be a bijection between all paths and the paths with no empty segment.
- **Library types.**
  - `QueryMaps`: `QueryMap`, the pairs grouped per key into a count of bare occurrences and the list of values in input order. Its building loop is `QueryMaps.FromQueryIter`.
  - `Pieces`: the `RoutePiece` conversions for `String`, `i32` and `bool`.
  - `Routes`: `Route::parse_str` and `Route::parse_strs`.
  - `PlainRoutes`: `PlainRoute`, the untyped route. Its end-to-end round trip is proved.
- **Derived routes.**
  - `Templates` models the template compiler of the derive macro. A route attribute such as `foo/{}?k={}&flag` becomes path specs and query specs. Each spec is a literal or a placeholder, checked against the variant's shape (unit, tuple or named) and against its number of fields. The compiler's loops over pieces (`parse_path_fields`, `parse_query_fields`) and `PathAndQuery::parse` are methods proved equal to recursive functions.
  - `Matcher` is the semantics of the code the macro generates for `Route::parse`, `Route::path` and `Route::query`, written as an interpreter over a table of templates, one per variant in declaration order.
    - `parse`: normalise, build the query map, then return the first template that matches, or `NoMatch` when none does.
    - `path` and `query`: render a variant's pieces through its template.
    - The generated matcher walks the segment iterator with early returns. It is modelled by the loops `Matcher.WalkPath` and `Matcher.CheckQuery` and the method `Matcher.Parse`, each proved equal to its function.

Text is modelled as bytes: `Text.Bytes` is a sequence of characters below 256. The example modules (`RawExamples`, `NormalizeExamples`, `PlainRouteExamples`, `TemplatesExamples`, `MatcherExamples`) state the crate's doc-tests and unit tests. Where a test asserts something the code does not do, its lemma states what the code does. `Words` holds small facts those examples share.

## Model

| member | source | states |
|---|---|---|
| Raw.ParsePathAndQuery | routetype/src/raw.rs:18-27 | the query is absent exactly when the target has no `?`; otherwise the text before the first `?` is parsed as the path and the text after it as the query |
| Raw.ParsePathAndQueryAt | routetype/src/raw.rs:19-25 | for a target written as path, `?`, query with no `?` in the path, the result is the parsed path with the parsed query present |
| Text.StripPrefix | routetype/src/raw.rs:54-56 | exactly one leading `c` is removed when present, and nothing otherwise; `parse_path` uses it with `/` and `parse_strs` (lib.rs:69) with `?` |
| Raw.RawSegments | routetype/src/raw.rs:53-62 | an empty remainder gives no segments; otherwise the raw segments joined by `/` give back the remainder, and none of them holds a `/` |
| Raw.ParsePath | routetype/src/raw.rs:53-62 | one segment per raw segment, in order, each the percent-decoding of its raw text |
| Raw.SegmentCount | routetype/src/raw.rs:57-61 | a non-empty remainder gives one more segment than it has `/` characters |
| Raw.ParsePathOfPieces | routetype/src/raw.rs:53-62 | joining `%`-free pieces without `/` by `/`, with or without a leading `/`, and parsing gives the pieces back |
| Raw.ParseQuery | routetype/src/raw.rs:95-101 | the empty query has no pairs; otherwise there is one pair per `&`-separated piece, in order, each parsed as a pair |
| Raw.PairCount | routetype/src/raw.rs:95-101 | a non-empty query has one more pair than it has `&` characters |
| Raw.ParseQueryOfPieces | routetype/src/raw.rs:95-101 | joining pieces without `&` by `&` and parsing gives one pair per piece, in order |
| Raw.ParseQueryPair | routetype/src/raw.rs:103-112 | the value is absent exactly when the pair has no `=`; otherwise the key is the decoded text before the first `=` and the value the decoded text after it |
| Raw.ParseQueryPairAt | routetype/src/raw.rs:106-110 | `k=v` with no `=` in `k` and no `%` in either gives `(k, Some(v))`, so later `=` and `?` stay in the value |
| Raw.ParseQueryPairBare | routetype/src/raw.rs:105 | a `%`-free pair with no `=` gives the key with no value |
| Raw.DecodePlain | routetype/src/raw.rs:29-31 | text without `%` decodes to itself |
| Raw.DecodeEscape | routetype/src/raw.rs:29-31 | `%` and two hex digits decode to the byte they spell, and the text around them is kept |
| Raw.DecodeIgnoresHexCase | routetype/src/raw.rs:29-31 | an escape decodes the same whatever the case of its hex digits |
| Raw.Decode | routetype/src/raw.rs:29-31 | reference definition of `decode`; its properties are stated by DecodePlain, DecodeEscape, DecodeIgnoresHexCase and DecodeEncode |
| Raw.UpperHex | routetype/src/raw.rs:181-185 | the digit the encoder writes for a value below 16 is read back as that value |
| Raw.DecodeEncode | routetype/src/raw.rs:181-185 | decoding the encoding of `%`-free text, with either set, gives the text back |
| Raw.EncodePlain | routetype/src/raw.rs:181-185 | text that the set never escapes is written unchanged |
| Raw.EncodeEscaped | routetype/src/raw.rs:181-185 | an escaped byte is written as `%` and two upper-case hex digits |
| Raw.EncodeAppend | routetype/src/raw.rs:181-185 | encoding distributes over concatenation |
| Raw.Encode | routetype/src/raw.rs:181-185 | the encoding is never shorter than its input; that bytes in the set become `%XX` and the rest are kept is stated by EncodePlain, EncodeEscaped and EncodeAppend, and its inverse by DecodeEncode |
| Raw.EncodeOmits | routetype/src/raw.rs:187-189 | a byte that is not `%` or a hex digit is absent from the encoding when the set escapes it or the input lacks it |
| Raw.EncodeKeeps | routetype/src/raw.rs:187-189 | a byte the set does not escape survives encoding |
| Raw.EncodeEquals | routetype/src/raw.rs:188 | the query set keeps `=` unescaped: the encoding holds `=` exactly when the input does |
| Raw.EncodedSegmentHasNoSeparator | routetype/src/raw.rs:189 | an encoded segment holds neither `/` nor `?` |
| Raw.SegmentsText | routetype/src/raw.rs:191-195 | the segment loop writes nothing exactly for no segments, and otherwise starts with `/` |
| Raw.SegmentsOmitQuestion | routetype/src/raw.rs:191-195 | the rendered path never holds `?` |
| Raw.SegmentsTextJoin | routetype/src/raw.rs:191-195 | the rendered path is `/` followed by the encoded segments joined by `/` |
| Raw.PairTextEquals | routetype/src/raw.rs:211-215 | a rendered pair holds `=` exactly when it has a value or its key holds one |
| Raw.PairsTextJoin | routetype/src/raw.rs:202-216 | the query loop writes the rendered pairs joined by `&` |
| Raw.Render | routetype/src/raw.rs:191-217 | the output always starts with `/`, and holds `?` exactly when a query is given |
| Raw.RenderPathAndQuery | routetype/src/raw.rs:174-219 | the buffer-appending renderer produces `Render` of its input |
| Raw.AppendPairs | routetype/src/raw.rs:200-217 | the `first`-flag loop appends the pairs joined by `&` to the buffer |
| Raw.ParsePathRender | routetype/src/raw.rs:53-62 | parsing the rendered path of `%`-free segments gives the segments back, except the lone empty segment, which renders as `/` |
| Raw.ParseQueryPairRender | routetype/src/raw.rs:103-112 | a rendered pair whose key avoids `%&=` and whose value avoids `%&` holds no `&` and parses back to itself |
| Raw.ParseQueryRender | routetype/src/raw.rs:95-101 | such pairs, other than the single bare empty key, parse back from their rendering |
| Raw.ParseRender | routetype/src/raw.rs:174-219 | parsing a rendered target gives the path and the query back, the query's presence included, under the same conditions |
| RawExamples.LeadingSlashExample | routetype/src/raw.rs:37-42 | `/foo` parses to the one segment `foo` |
| RawExamples.EmptySegmentsExample | routetype/src/raw.rs:46-51 | `foo//bar/` parses to `foo`, ``, `bar`, `` |
| RawExamples.PlainPiecesExample | routetype/src/raw.rs:260-263 | `/foo/bar/baz` parses to three segments |
| RawExamples.EscapedSlashExample | routetype/src/raw.rs:265-269 | `%2F` and `%2f` inside a segment both decode to `/` without splitting it |
| RawExamples.SplitAtQuestionExamples | routetype/src/raw.rs:232-250 | ``, `/`, `?` and `/?` give no segments, and a query exactly for the last two |
| RawExamples.QueryPresenceExample | routetype/src/raw.rs:11-15 | `/foo/bar` has no query and `/foo/bar?` has one |
| RawExamples.QueryQuestionKeyExample | routetype/src/raw.rs:68-74 | a `?` handed to the query parser stays in the first key |
| RawExamples.QueryNoValueExample | routetype/src/raw.rs:86-87 | `key` has no value |
| RawExamples.QueryEmptyValueExample | routetype/src/raw.rs:88-89 | `key=` has the empty value |
| RawExamples.BareEmptyValued | routetype/src/raw.rs:95-101 | for keys and a value without `&`, `=` or `%`, `a&b=&c=v` parses to a bare key, a key with the empty value and a key with the value, in that order |
| RawExamples.QueryValuesMissingExample | routetype/src/raw.rs:271-278 | `?foo&bar=&baz=bin` gives no segments and the pairs `foo` without a value, `bar` with the empty value and `baz` with `bin` |
| RawExamples.QuestionInQueryExample | routetype/src/raw.rs:280-283 | `/foo/?bar=baz?` gives segments `foo`, `` and the pair `bar`, `baz?` |
| RawExamples.RenderEmptyExamples | routetype/src/raw.rs:118-127 | no segments and the one empty segment both render as `/` |
| RawExamples.RenderPlainSegments | routetype/src/raw.rs:129-141 | `hello`, `world` render as `/hello/world`, and as `/hello/world?` with an empty query |
| RawExamples.RenderPairsExample | routetype/src/raw.rs:145-154 | a bare key, an empty value and a value render as `/?foo&bar=&baz=bin` |
| RawExamples.EncodeSlashExample | routetype/src/raw.rs:158-171 | a `/` inside a segment is written `%2F` |
| RawExamples.EncodeHashExample | routetype/src/raw.rs:158-171 | a `#` in a query value is written `%23` |
| RawExamples.EncodeQuestionExample | routetype/src/raw.rs:158-171 | a `?` in a query key is written as it is |
| Normalize.NonEmpty | routetype/src/normalize.rs:53 | the filter keeps exactly the non-empty segments and never lengthens the path |
| Normalize.NonEmptyAppend | routetype/src/normalize.rs:53 | the filter works piece by piece: filtering `a + b` is filtering `a`, then `b`, so order and repeats are kept |
| Normalize.NonEmptyOne | routetype/src/normalize.rs:53 | one segment is dropped exactly when it is empty |
| Normalize.NonEmptyKeeps | routetype/src/normalize.rs:53 | a path with no empty segment comes through whole |
| Normalize.NormalizeParse | routetype/src/normalize.rs:40-84 | the in-place parse normalisation produces `NormalizedParse` of its input |
| Normalize.NormalizedParse | routetype/src/normalize.rs:40-84 | reference definition of `normalize::parse`; its properties are stated by NormalizeParse, ParseFailsIffEmptySegment, ParseSuccess and ParseRenderPath |
| Normalize.NormalizeRenderPath | routetype/src/normalize.rs:87-104 | the in-place render escape produces `EscapePath` of its input |
| Normalize.EscapePath | routetype/src/normalize.rs:87-104 | reference definition of `normalize::render_path`; its properties are stated by NormalizeRenderPath, RenderPathShape and RenderParsePath |
| Normalize.ParseFailsIffEmptySegment | routetype/src/normalize.rs:51-76 | parsing fails exactly when some segment is empty, and the failure carries the rendering of the non-empty segments with the query unchanged |
| Normalize.ParseSuccess | routetype/src/normalize.rs:77-83 | on success the count is kept, every all-dash segment loses one `-`, the other segments are kept and the query is returned as given |
| Normalize.RenderPathShape | routetype/src/normalize.rs:91-103 | rendering keeps the count, adds one `-` to every all-dash segment, the empty one included, keeps the others, and never yields an empty segment |
| Normalize.DashRun | routetype/src/normalize.rs:91-100 | escaping a run of `n` dashes gives `n + 1` dashes, and unescaping undoes it |
| Normalize.ParseRenderPath | routetype/src/normalize.rs:77-82 | parsing a rendered path succeeds and gives back the path and the query |
| Normalize.RenderParsePath | routetype/src/normalize.rs:91-101 | rendering a successfully parsed path gives back the input, so the escape is a bijection onto paths without empty segments |
| NormalizeExamples.NoSegmentsExample | routetype/src/normalize.rs:128 | no segments is canonical |
| NormalizeExamples.LoneEmptySegmentExample | routetype/src/normalize.rs:129 | the lone empty segment fails with `/` |
| NormalizeExamples.CanonicalExample | routetype/src/normalize.rs:130 | `foo`, `bar` is canonical and kept |
| NormalizeExamples.TrailingSlashExample | routetype/src/normalize.rs:131 | `foo`, `bar`, `` fails with `/foo/bar` |
| NormalizeExamples.DashEscapeExamples | routetype/src/normalize.rs:94-99 | `` renders as `-`, `-` as `--`, and `a-` is left alone |
| QueryMaps.FromQueryIter | routetype/src/lib.rs:145-159 | the entry-updating loop builds the map `Build` describes |
| QueryMaps.Build | routetype/src/lib.rs:145-159 | reference definition of `from_query_iter`; its properties are stated by FromQueryIter, EntryOf, NoQueryIsEmpty and Extend |
| QueryMaps.Extend | routetype/src/lib.rs:151-157 | one more pair adds its key, bumps the bare count of its key only when it has no value, and appends its value to that key's list only when it has one |
| QueryMaps.NoQueryIsEmpty | routetype/src/lib.rs:147-149 | a missing query contains no key and has no single value |
| QueryMaps.EntryOf | routetype/src/lib.rs:151-157 | each key's entry is its number of bare occurrences and its values in input order |
| QueryMaps.OtherKeysIgnored | routetype/src/lib.rs:151-157 | pairs with other keys change neither a key's count, nor its values, nor its presence |
| QueryMaps.ContainsIffOccurs | routetype/src/lib.rs:170-172 | `contains` holds exactly when the key occurs in some pair, bare or valued |
| QueryMaps.Contains | routetype/src/lib.rs:170-172 | reference definition of `contains`; its property is stated by ContainsIffOccurs |
| QueryMaps.GetSingleIff | routetype/src/lib.rs:161-168 | `get_single` gives `v` exactly when `v` is the key's only value, whatever its bare count |
| QueryMaps.GetSingle | routetype/src/lib.rs:161-168 | reference definition of `get_single`; its property is stated by GetSingleIff |
| QueryMaps.LookupIgnoresOtherKeys | routetype/src/lib.rs:161-172 | appending pairs with other keys changes neither `contains` nor `get_single` of a key |
| QueryMaps.SingleOccurrence | routetype/src/lib.rs:161-172 | a key that occurs once is contained, and its value, if any, is its single value |
| Pieces.NatDigits | routetype/src/lib.rs:116-118 | the decimal spelling of a number is digits only, has no leading zero, and reads back as the number |
| Pieces.ParseBool | routetype/src/lib.rs:122-128 | only `true` and `false` parse, to `true` and `false` |
| Pieces.ParsePiece | routetype/src/lib.rs:93-136 | a parsed piece has the requested kind, and text always parses to itself |
| Pieces.I32RoundTrip | routetype/src/lib.rs:111-119 | every 32-bit integer parses back from its rendering |
| Pieces.I32RejectsWords | routetype/src/lib.rs:112-114 | `fortytwo`, the empty text and a lone sign are not integers |
| Pieces.I32Examples | routetype/src/lib.rs:112-118 | `42`, `+7` and `-0` parse, and 42 renders as `42` |
| Pieces.I32Overflow | routetype/src/lib.rs:112-114 | one past the largest 32-bit integer does not parse |
| Pieces.ParseI32 | routetype/src/lib.rs:111-114 | reference definition of `i32::from_str`; its properties are stated by I32RoundTrip, I32RejectsWords, I32Overflow and I32Examples |
| Pieces.BoolRoundTrip | routetype/src/lib.rs:121-136 | every boolean parses back from its rendering |
| Pieces.TextIdentity | routetype/src/lib.rs:101-109 | the text piece is the identity in both directions |
| Pieces.PieceRoundTrip | routetype/src/lib.rs:93-136 | every piece parses back, as its own kind, from its rendering |
| Pieces.RenderPiece | routetype/src/lib.rs:93-136 | reference definition of `render_route_piece`; its inverse is stated by PieceRoundTrip |
| Routes.ParseStrsAsWritten | routetype/src/lib.rs:66-75 | as written, the query is present exactly when the query string is empty, and then it has no pairs |
| Routes.ParseStrsInput | routetype/src/lib.rs:63-75 | corrected: the query is absent exactly when the query string is empty, and otherwise it is the parse of the string after one leading `?` |
| Routes.ParseStrsAgreesWithParseStr | routetype/src/lib.rs:58-75 | the corrected `parse_strs` of a path and a query gives the same input as `parse_str` of the target joined by `?` |
| Routes.ParseStrsAsWrittenDisagrees | routetype/src/lib.rs:68-73 | the code as written never passes `parse` the query that `parse_str` would |
| Routes.ParseStrsDropsQueryExample | routetype/src/lib.rs:68-73 | as written, the query `a` is dropped; corrected, it is the bare key `a` |
| PlainRoutes.Parse | routetype/src/lib.rs:183-197 | parsing fails exactly when a segment is empty, with the redirect target; otherwise it keeps the query, and escaping its path gives back the input segments |
| PlainRoutes.PathOf | routetype/src/lib.rs:199-206 | the rendered path has one segment per segment and none of them is empty |
| PlainRoutes.ParsePathOf | routetype/src/lib.rs:183-206 | parsing a route's own rendered path and query gives the route back |
| PlainRoutes.Render | routetype/src/lib.rs:80-89 | reference definition of `render` for a plain route; its properties are stated by RoundTrip, PathOf and ParsePathOf |
| PlainRoutes.RoundTrip | routetype/src/lib.rs:243-251 | render then `parse_str` gives an equal route, for segments without `%` and queries the codec can carry |
| PlainRoutes.ParseStr | routetype/src/lib.rs:58-61 | reference definition of `parse_str` for a plain route; its properties are stated by RoundTrip and ParseStrsAgrees |
| PlainRoutes.PathRoundTrip | routetype/src/lib.rs:253-259 | the same for routes without a query, for segments without `%` |
| PlainRoutes.ParseStrsAgrees | routetype/src/lib.rs:66-75 | the corrected `parse_strs` gives the same route as `parse_str` of the joined target |
| PlainRoutes.ParseStrs | routetype/src/lib.rs:66-75 | reference definition of `parse_strs` with the query test corrected; stated by ParseStrsAgrees, and Routes.ParseStrsAsWrittenDisagrees shows how the code as written differs |
| PlainRouteExamples.SingleEmptyStringExample | routetype/src/lib.rs:271-281 | the route with one empty segment renders as `/-` and parses back |
| PlainRouteExamples.DoubleSlashExample | routetype/src/lib.rs:319-326 | `/foo//bar` fails normalisation with `/foo/bar` |
| PlainRouteExamples.PercentSegmentExample | routetype/src/lib.rs:253-259 | the segment `%41` renders as `/%41` and parses back as `A`, so the path property fails for it |
| PlainRouteExamples.AmpValueExample | routetype/src/lib.rs:283-293 | the value `&` renders as `/?=&`, not `/?=%26`, and parses back as two pairs |
| PlainRouteExamples.EqualValueExample | routetype/src/lib.rs:295-305 | the value `=` renders as `/?==`, not `/?=%3D`, and still parses back |
| PlainRouteExamples.PercentValueExample | routetype/src/lib.rs:307-317 | the value `%00` renders as `/?=%00`, not `/?=%2500`, and parses back as the byte 0 |
| PlainRouteExamples.TrailingSlashExample | routetype/src/lib.rs:328-335 | `/foo/bar/` fails normalisation with `/foo/bar` |
| Templates.ParseRawValue | routetype-derive/src/route_parse.rs:434-446 | `{}` is positional; text not starting with `{` is a literal; text starting with `{` but not ending with `}` is an error; the rest is a name between the braces |
| Templates.FromPositional | routetype-derive/src/route_parse.rs:478-543 | a positional placeholder is accepted exactly in tuple variants |
| Templates.FromNamed | routetype-derive/src/route_parse.rs:478-543 | a named placeholder is accepted exactly in named variants, and keeps its name |
| Templates.ParseValue | routetype-derive/src/route_parse.rs:547-556 | a literal leaves the counter alone; a placeholder gets the next local number and a field the variant admits |
| Templates.ValueAdmitted | routetype-derive/src/route_parse.rs:547-556 | every placeholder's field is of a form the variant admits |
| Templates.RemoveField | routetype-derive/src/route_parse.rs:559-571 | a literal takes no field; a placeholder pops the last field, and fails with too many pieces exactly when none is left |
| Templates.CompileValue | routetype-derive/src/route_parse.rs:234-237 | a compiled piece denotes its raw text; a placeholder bumps the counter and pops one field, and a literal does neither |
| Templates.CompilePair | routetype-derive/src/route_parse.rs:253-267 | a pair without `=` is a key-only spec taking no field; otherwise the key is the text before the first `=` and the value is compiled from the rest |
| Templates.ParsePathFields | routetype-derive/src/route_parse.rs:223-240 | the segment loop with its counter produces `PathSpecs` of its input |
| Templates.SegsShape | routetype-derive/src/route_parse.rs:223-240 | one spec per piece, in order, each denoting its piece, local numbers counting the placeholders before it, and one field popped per placeholder |
| Templates.CompileSegs | routetype-derive/src/route_parse.rs:223-240 | reference definition of compiling the path segments; its properties are stated by SegsShape and SegsFieldCount |
| Templates.SegsFieldCount | routetype-derive/src/route_parse.rs:559-571 | with any other field list the path compiles to the same specs when it has enough fields, and fails with too many pieces when it does not |
| Templates.PathFieldCount | routetype-derive/src/route_parse.rs:223-240 | the same for a whole path, its optional leading `/` included |
| Templates.PathSpecs | routetype-derive/src/route_parse.rs:223-240 | reference definition of the path segment specs; its properties are stated by ParsePathFields and PathFieldCount |
| Templates.QuerySpecs | routetype-derive/src/route_parse.rs:247-249 | an empty query string is an error |
| Templates.ParseQueryFields | routetype-derive/src/route_parse.rs:243-270 | the pair loop, with its own counter from 0, produces `QuerySpecs` of its input |
| Templates.PairsShape | routetype-derive/src/route_parse.rs:250-269 | one spec per `&`-piece, in order, key-only without `=`, split at the first `=` otherwise, with one field popped per placeholder |
| Templates.PairsFieldCount | routetype-derive/src/route_parse.rs:250-269 | with any other field list the pairs compile to the same specs when there are enough fields, and fail with too many pieces when there are not |
| Templates.CompilePairs | routetype-derive/src/route_parse.rs:250-269 | reference definition of compiling the query pairs; its properties are stated by PairsShape and PairsFieldCount |
| Templates.QueryArity | routetype-derive/src/route_parse.rs:243-270 | a query that uses up its fields compiles the same with more fields, and fails with fewer |
| Templates.RequireFieldsUsed | routetype-derive/src/route_parse.rs:273-285 | success exactly when no field is left |
| Templates.ParseTemplate | routetype-derive/src/route_parse.rs:336-355 | compiling a route attribute produces `Compiled` of it |
| Templates.PartsArity | routetype-derive/src/route_parse.rs:336-355 | once a template compiles, fewer fields fail with too many pieces, more fields fail naming the unused ones, and the same number give the same template |
| Templates.CompiledArity | routetype-derive/src/route_parse.rs:336-355 | the same for a whole route attribute |
| Templates.PartsShape | routetype-derive/src/route_parse.rs:336-355 | a compiled template uses every field exactly once, only in admitted forms, none in a unit variant, with one path spec per path piece and one query spec per query piece |
| Templates.CompileParts | routetype-derive/src/route_parse.rs:336-355 | reference definition of compiling the path and query parts; its properties are stated by PartsArity and PartsShape |
| Templates.CompiledShape | routetype-derive/src/route_parse.rs:336-355 | the same for a whole attribute split at its first `?` |
| Templates.Compiled | routetype-derive/src/route_parse.rs:336-355 | reference definition of the compiled template; its properties are stated by ParseTemplate, CompiledArity and CompiledShape |
| Templates.UnitHasNoPlaceholders | routetype-derive/src/route_parse.rs:478-499 | a unit variant's template compiles only with no placeholders and no fields |
| Templates.EmptyQueryRejected | routetype-derive/src/route_parse.rs:247-249 | an attribute ending in `?` is rejected as an empty query |
| TemplatesExamples.RawValueExamples | routetype-derive/src/route_parse.rs:434-446 | `{}`, `{name}`, `{x`, `a}` and the empty text are classified as positional, named, error, literal and literal |
| TemplatesExamples.FooTupleExample | routetype-derive/src/route_parse.rs:336-355 | `foo/{}?k={}&flag` for a tuple variant of two fields compiles to a literal, a placeholder, a valued key and a bare key |
| TemplatesExamples.UnitPlaceholderExample | routetype-derive/src/route_parse.rs:478-486 | a unit variant rejects a placeholder |
| TemplatesExamples.WrongPlaceholderExamples | routetype-derive/src/route_parse.rs:501-529 | a tuple variant rejects `{name}` and a named variant rejects `{}` |
| TemplatesExamples.TooManyPiecesExample | routetype-derive/src/route_parse.rs:559-571 | two placeholders for one field fail with too many pieces |
| TemplatesExamples.FieldsUnusedExample | routetype-derive/src/route_parse.rs:273-285 | a field no placeholder takes is reported unused by name |
| TemplatesExamples.RootExample | routetype-derive/src/route_parse.rs:227-230 | `/` compiles to the template with no specs |
| TemplatesExamples.LiteralPlaceholderPath | routetype-derive/src/route_parse.rs:223-240 | the path `lit/{}` in a tuple variant compiles to the literal and then placeholder 1, popping one field |
| TemplatesExamples.NamedQuery | routetype-derive/src/route_parse.rs:243-270 | the query `name={name}` with the one field `name` compiles to the key `name` taking placeholder 1, with no field left |
| TemplatesExamples.LiteralNamedRoute | routetype-derive/src/route_parse.rs:336-355 | `lit?name={name}` with the one field `name` compiles to one literal segment and that key |
| TemplatesExamples.StyleAttribute | routetype/tests/deriving.rs:7 | `style.css` in a unit variant compiles to one literal segment |
| TemplatesExamples.HelloAttribute | routetype/tests/deriving.rs:9-12 | `hello/{name}` with the field `name` compiles to a literal and the placeholder for `name`, numbered 1 |
| TemplatesExamples.FooAttribute | routetype/tests/deriving.rs:13-16 | `foo?bar={bar}` with the field `bar` compiles to a literal segment and the key `bar` with the placeholder for `bar` |
| TemplatesExamples.GoodbyeAttribute | routetype/tests/deriving.rs:17-18 | `/goodbye/{}` in a one-field tuple variant drops the leading `/` and compiles to a literal and a positional placeholder |
| Matcher.TypedSegs | routetype-derive/src/route_parse.rs:393-400 | giving each placeholder its field's piece type keeps literals and local numbers and uses the types in order |
| Matcher.TypedPairs | routetype-derive/src/route_parse.rs:624-631 | the same for query specs: keys, literal values and local numbers are kept, and the same pairs have values and take fields |
| Matcher.Typed | routetype-derive/src/route_parse.rs:329-332 | a typed template's placeholders carry exactly the given piece types, in order; path and query keep their lengths, literals and keys stay, and each placeholder keeps its local number |
| Matcher.MatchPath | routetype-derive/src/route_parse.rs:600-613 | a path match consumes exactly as many segments as there are specs, and yields one piece of the right type per placeholder |
| Matcher.WalkPath | routetype-derive/src/route_parse.rs:194-197 | the step-by-step walk over the segment iterator, with its early returns and its final leftover check, gives `MatchPath` |
| Matcher.MatchPathIff | routetype-derive/src/route_parse.rs:600-613 | the path matches exactly when the lengths agree and each literal equals its segment and each placeholder's segment parses |
| Matcher.MatchPathPieces | routetype-derive/src/route_parse.rs:607-611 | each placeholder's piece is the parse of its own segment |
| Matcher.MatchPair | routetype-derive/src/route_parse.rs:651-664 | a query spec yields one piece of its field's type when it takes a field, and none otherwise; that piece is the key's single value parsed as the field's type |
| Matcher.PairAcceptsIff | routetype-derive/src/route_parse.rs:651-664 | a key-only spec needs `contains`, a literal needs `get_single` to equal it, and a placeholder needs `get_single` to parse |
| Matcher.MatchQuery | routetype-derive/src/route_parse.rs:651-664 | a query match yields one piece of the right type per placeholder, in spec order |
| Matcher.MatchQueryPieces | routetype-derive/src/route_parse.rs:651-664 | the piece of query spec `i`'s placeholder, found after those of the earlier placeholders, is its key's single value parsed as its type |
| Matcher.CheckQuery | routetype-derive/src/route_parse.rs:651-664 | the loop over the query checks with early returns gives `MatchQuery` |
| Matcher.MatchQueryIff | routetype-derive/src/route_parse.rs:651-664 | the query matches exactly when every spec accepts the map |
| Matcher.QueryAgrees | routetype-derive/src/route_parse.rs:651-664 | the query match depends only on `contains` and `get_single` of the keys the template names |
| Matcher.QueryIgnoresOtherKeys | routetype-derive/src/route_parse.rs:651-664 | pairs with keys the template never names do not change the match |
| Matcher.MatchTemplate | routetype-derive/src/route_parse.rs:190-204 | a template match yields one piece of the right type per placeholder, path pieces first |
| Matcher.FirstMatch | routetype-derive/src/route_parse.rs:106-112 | a hit names a template at or after the start that matches with exactly those pieces |
| Matcher.FirstMatchIff | routetype-derive/src/route_parse.rs:106-112 | template `j` wins exactly when it matches and no earlier template does |
| Matcher.FirstMatchSound | routetype-derive/src/route_parse.rs:190-204 | the winner matches and every template before it fails |
| Matcher.FirstMatchComplete | routetype-derive/src/route_parse.rs:190-204 | a matching template with no earlier match is the winner |
| Matcher.FirstMatchNone | routetype-derive/src/route_parse.rs:106-112 | there is no winner exactly when no template matches |
| Matcher.ParseRoute | routetype-derive/src/route_parse.rs:46-56 | a normalisation failure is returned exactly when normalisation fails, and it carries the normaliser's redirect target, the path without its empty segments rendered with the query; a success names a template and pieces that fit it |
| Matcher.Parse | routetype-derive/src/route_parse.rs:46-56 | the generated `parse`, with its blocks tried in order, gives `ParseRoute` |
| Matcher.ParseRouteIff | routetype-derive/src/route_parse.rs:46-56 | the result is variant `j` with pieces `ps` exactly when normalisation succeeds, template `j` matches with `ps` and no earlier template matches |
| Matcher.NoMatchIff | routetype-derive/src/route_parse.rs:46-56 | the result is `NoMatch` exactly when normalisation succeeds and no template matches |
| Matcher.RenderSegs | routetype-derive/src/route_parse.rs:580-589 | the path arm pushes one segment per path spec |
| Matcher.RenderSegsAt | routetype-derive/src/route_parse.rs:580-589 | segment `i` is its spec's literal, or the rendering of the piece after those of the earlier placeholders |
| Matcher.RenderPair | routetype-derive/src/route_parse.rs:635-648 | a rendered pair keeps the spec's key and has a value exactly when the spec has one: the literal for a literal, the rendered piece for a placeholder |
| Matcher.RenderPairs | routetype-derive/src/route_parse.rs:635-648 | the query arm pushes one pair per query spec, each with its spec's key and with a value exactly when the spec has one |
| Matcher.RenderPairsAt | routetype-derive/src/route_parse.rs:635-648 | pair `i` is its spec's key with no value, its literal value, or the rendering of the piece after those of the earlier placeholders |
| Matcher.RouteQuery | routetype-derive/src/route_parse.rs:66-76 | the query is absent exactly when no pair was pushed |
| Matcher.RenderInput | routetype-derive/src/route_parse.rs:58-76 | `path` gives one non-empty segment per path spec, and `query` is absent exactly when the template has no query specs |
| Matcher.MatchPathRendered | routetype-derive/src/route_parse.rs:580-613 | the path specs match the segments they render, giving back the pieces |
| Matcher.PairRendered | routetype-derive/src/route_parse.rs:635-664 | a query spec accepts a map that answers its rendered pair, giving back its piece |
| Matcher.MatchQueryRendered | routetype-derive/src/route_parse.rs:635-664 | the query specs match a map that answers every rendered pair, giving back the pieces |
| Matcher.RenderedMapAnswers | routetype-derive/src/route_parse.rs:635-648 | when the template's keys are distinct, the map built from its rendered pairs answers each of them |
| Matcher.MatchRendered | routetype-derive/src/route_parse.rs:58-76 | a template matches its own rendering and gives back the pieces |
| Matcher.ParseRendered | routetype-derive/src/route_parse.rs:38-79 | `parse` of a variant's rendered path and query gives back the variant and its pieces when no earlier template matches them |
| Matcher.RoundTrip | routetype-derive/src/route_parse.rs:38-79 | the same through the rendered target string and `parse_str`, for output the codec can carry |
| Matcher.ParseStr | routetype/src/lib.rs:58-61 | reference definition of `parse_str` for a derived route; its properties are stated by Matcher.RoundTrip and the MatcherExamples parse lemmas |
| Matcher.RenderTarget | routetype/src/lib.rs:80-89 | reference definition of `render` for a derived route; its properties are stated by Matcher.RoundTrip and the MatcherExamples render lemmas |
| MatcherExamples.ParseHelloExample | routetype/tests/deriving.rs:41-43 | `/hello/alice` parses to `Hello` with the name `alice` |
| MatcherExamples.ParseHelloTrailingSlashExample | routetype/tests/deriving.rs:44 | `/hello/alice/` fails normalisation with `/hello/alice` |
| MatcherExamples.ParseFooExample | routetype/tests/deriving.rs:49 | `foo?bar=42` parses to `Foo` with 42 |
| MatcherExamples.ParseFooWordExample | routetype/tests/deriving.rs:50 | `foo?bar=fortytwo` matches no variant |
| MatcherExamples.ParseStyleExample | routetype/tests/deriving.rs:36-39 | `/style.css?foo` parses to `Style`, ignoring the unnamed key |
| MatcherExamples.ParseUnknownExample | routetype/tests/deriving.rs:59-62 | `/does/not/exist` matches no variant |
| MatcherExamples.MyRoutesCompiled | routetype/tests/deriving.rs:3-19 | each of the five entries of the table of templates is the route attribute in the same position, compiled and with each placeholder typed by its field |
| MatcherExamples.RenderStyleExample | routetype/tests/deriving.rs:26-29 | `Style` renders as `/style.css`, not the `/style%2Ecss` the test asserts, since neither set escapes `.` |
| MatcherExamples.RenderHomeExample | routetype/tests/deriving.rs:21-24 | `Home` renders as `/` |
| MatcherExamples.RenderHelloExample | routetype/tests/deriving.rs:31-34 | `Hello` with `alice` renders as `/hello/alice` |
| MatcherExamples.RenderFooExample | routetype/tests/deriving.rs:51 | `Foo` with 42 renders as `/foo?bar=42` |
| MatcherExamples.ShadowingExample | routetype-derive/src/route_parse.rs:106-112 | a `{}/{}` variant declared first captures the rendering of a later `goodbye/{}` variant |

## Left out

- Text is bytes. UTF-8 decoding, the lossy repair of `decode_utf8_lossy` and multi-byte encoding are not modelled. A decoded byte is kept as it is, and every byte of 0x80 and above counts as escaped by both sets.
- Iterators, `Either` and `Cow` become finite sequences. Whether a result is borrowed or owned is not modelled, and so neither is the normaliser test that checks it.
- `HashMap` becomes a Dafny `map` from keys to entries. Hashing and iteration order are not modelled, and the crate never relies on them.
- Macro machinery is not part of this model: `routetype-derive/src/lib.rs`, the `syn` attribute lookup, and the token generation in `gen_pattern`, `construct` and `wrap_construct`. Templates are data, and `Matcher` interprets them.
- Matcher.Typed: the type of each variant field is checked by the Rust compiler, not by the macro. The model takes the list of piece types as an argument instead of reading field types.
- Named placeholders are matched to fields only by count, as `remove_field` does. The model does not check that the name is a valid identifier (`format_ident!`) or that it names a real field; both are compiler errors in the generated code.
- Server adapters (`routetype-hyper`, `routetype-warp`) and the example application are not part of this model.
- The query-escaping tests at routetype/src/lib.rs:283-317 assert that `&`, `=` and `%` are escaped in query values, and `QUERY_SET` escapes none of them. The sets are modelled as written. What the code does on those inputs is stated by `PlainRouteExamples.AmpValueExample`, `PlainRouteExamples.EqualValueExample` and `PlainRouteExamples.PercentValueExample`.
- routetype/tests/deriving.rs:28 asserts that `.` is escaped, and `PATH_SET` does not escape it; its own comment says escaping `.` is unwanted. `MatcherExamples.RenderStyleExample` states what the code renders. The tests in that file use the older `Option` result; only their outcomes are stated, with `NoMatch` or a normalisation failure in place of `None`.
- Raw.Encode: its own contract states only a length bound. What encoding does is stated by `Raw.EncodePlain`, `Raw.EncodeEscaped`, `Raw.EncodeOmits` and `Raw.DecodeEncode`.
- Raw.ParseRender: requires `%`-free segments, keys without `%`, `&` or `=`, values without `%` or `&`, no lone empty segment, and no query that is a single bare empty key. The renderer leaves `%`, `&` and `=` unescaped in queries and `%` in segments, so other inputs do not survive.
- PlainRoutes.RoundTrip: requires the same of its route, for the same reason. The lone empty segment is allowed here, because the dash escape renders it as `/-`.
- PlainRoutes.PathRoundTrip: requires segments without `%`, while the property at routetype/src/lib.rs:253-259 is stated for every path. `PATH_SET` leaves `%` unescaped, so a segment such as `%41` comes back decoded, as `PlainRouteExamples.PercentSegmentExample` shows.
- Matcher.RoundTrip: requires the same of the rendered segments and pairs, distinct query keys in the winning template, and no earlier template matching the rendering. Two placeholders under one key render two values, which `get_single` refuses. An earlier template that matches wins, as `MatcherExamples.ShadowingExample` shows.
- Matcher.RenderSegs: states only the number of segments. What each segment holds is stated by `Matcher.RenderSegsAt` and `Matcher.MatchPathRendered`.
- Pieces.ParsePiece: `i32` parsing follows Rust's integer syntax for ASCII digits with an optional sign. Error kinds are not kept, since the crate discards them with `ok()`.

## Findings

| source | as written | input that shows it | evidently intended | confidence | as-written member | corrected member |
|---|---|---|---|---|---|---|
| routetype/src/lib.rs:66-75 | `parse_strs` parses the query only when the query string is empty, and passes no query otherwise | `parse_strs("/", "a")` drops the query `a`; `parse_strs("/", "")` passes an empty query where `parse_str("/")` passes none | parse the query string, minus one leading `?`, exactly when it is non-empty, as the doc comment at lines 63-65 says | not executed | Routes.ParseStrsAsWrittenDisagrees | Routes.ParseStrsAgreesWithParseStr |
