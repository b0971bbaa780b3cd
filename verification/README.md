# fxn router, modelled in Dafny

fxn is a small Node.js web framework. Its `Router` keeps an ordered table of
routes. Each route is built from a pattern such as `/abc/{id}` and bound to a
`Controller`. For an incoming request the router does five things:

- normalises the request path (`parsePath`);
- finds the first route whose pattern fits the path (`find`);
- decodes the query string and the request body (`parseQueryParameters`, `parseBody`);
- gathers all of this into one record (`prepare`);
- hands the record to the route's controller (`dispatch`).

The router's own implementation is not part of this model. The model follows
the behaviour that the router's test suite, `test/tests/router.js`, pins down.
Every assertion in that suite is a lemma or a method here, proved against
general definitions.

Modules, in dependency order:

- `Wrappers`: `Option` and `Result`, and `Kept`, which keeps the values a partial decoder gives for a list, in order.
- `Text`: string helpers.
  - `IndexOf`, `SplitOn` and `JoinOn`, with their inverse laws.
  - JavaScript's `trim`, with its full set of white-space characters, and `toLowerCase`, restricted to ASCII.
  - `IsAscii`, the ASCII test shared by the form decoder and the byte bodies.
- `Fields`: a list of name/value pairs collapsed into a map. When a name repeats, the last pair with that name wins.
- `Headers`: header lookup that ignores the case of the header name, and values of the form `type; key=value`.
- `Paths`: `parsePath`, and the split of a request target into its path and its query.
- `Patterns`: route patterns.
  - A pattern compiles into literal segments and `{name}` parameter segments.
  - A list of path components is matched against those segments.
- `FormUrlEncoded`: decoding and encoding of `application/x-www-form-urlencoded`.
- `JsonObject`: a flat JSON object of string values.
  - Lexer, parser and serializer.
- `Multipart`: `multipart/form-data` text fields.
  - Decoder and encoder.
- `Bodies`: request bodies.
  - A body is either text or bytes.
  - The media type comes from `content-type`.
  - `parseBody` and `parseQueryParameters` are defined here.
- `Routing`: routes and the router.
  - `Route` is a class with a mutable controller.
  - `Router` is a class holding the route table as a `seq<Route>`.
  - `Router` has `AddRoute`, `Find` and `Prepare`.
  - `Dispatch` is the function that gives a prepared request's outcome.
- `RouterSuite` and `BodySuite`: the test vectors of `test/tests/router.js`, as lemmas and methods.

Every round trip is proved: decoding what the encoder produced gives back the
fields (form, JSON and multipart). The same holds for a compiled pattern and its
rendering.

## Model

| member | source | states |
|---|---|---|
| Paths.PathPart | test/tests/router.js:14 | the path part contains no `?`, is a prefix of the request target, and is followed by `?` whenever it is shorter than the target |
| Paths.QueryPart | test/tests/router.js:34-36 | a target with a `?` is its path part, then `?`, then the query; a target without one has an empty query |
| Paths.ParsePath | test/tests/router.js:14-16 | the parsed path contains no `?`; it is either the target's path part or that part less one trailing `/` |
| Paths.ParsePathFixedPoints | test/tests/router.js:16 | `parsePath` leaves a path unchanged exactly when the path has no query and no trailing `/`, the root `/` aside |
| Paths.ParsePathNormal | test/tests/router.js:14-15 | the parsed path is normal exactly when the path part does not end in `//` |
| Paths.ParsePathStripsOneSlash | test/tests/router.js:15 | only one trailing slash is removed: `/abc//` gives `/abc/`, which parses again to `/abc` |
| Paths.PathPartNoQuery | test/tests/router.js:16 | a target without `?` is its own path part |
| Paths.ParsePathIgnoresQuery | test/tests/router.js:14 | appending `?query` to a path does not change the parsed path |
| Paths.ParsePathIgnoresTrailingSlash | test/tests/router.js:14-15 | with or without one trailing `/`, and with or without a query, a path parses to the same result |
| Patterns.RenderClassify | test/tests/router.js:22 | rendering a classified pattern component gives the component back |
| Patterns.ParamNamesAppend | test/tests/router.js:22 | the parameter names of two joined segment lists are the names of the first list followed by those of the second |
| Patterns.ParamNameAtRank | test/tests/router.js:112 | the k-th parameter name is the name of the segment that holds the k-th parameter |
| Patterns.Duplicate | test/tests/router.js:22 | no duplicate is reported exactly when the names are pairwise distinct; a reported duplicate occurs twice |
| Patterns.Compile | test/tests/router.js:22 | compiling succeeds exactly when the parameter names are distinct, giving the classified components; a failure names a repeated parameter |
| Patterns.RenderCompile | test/tests/router.js:22 | a compiled pattern renders back to the pattern text |
| Patterns.FitsTail | test/tests/router.js:31-33 | a path fits a pattern exactly when its first component is accepted by the first segment and the rest fits the rest |
| Patterns.Match | test/tests/router.js:31-36 | a successful match has no more path components than the pattern has segments, and one capture per parameter; MatchIffFits and MatchCaptures characterise it completely |
| Patterns.MatchIffFits | test/tests/router.js:31-36 | a match succeeds exactly when the path has no more components than the pattern, every component is accepted by its segment, and every missing trailing segment is a parameter |
| Patterns.MatchCaptures | test/tests/router.js:108-111 | a match captures once per parameter; each capture is the component at that parameter's position, or nothing past the end of the path |
| Patterns.NamedCaptures | test/tests/router.js:112 | after a match the bindings have exactly the pattern's parameter names as keys, and each name is bound to the component at that parameter's position, or to nothing when the path is shorter |
| Patterns.TrailingParamOptional | test/tests/router.js:31-33 | when a path matches a pattern that ends in a parameter, dropping the last component still matches, with the same captures except that the last one is empty |
| Fields.ToMap | test/tests/router.js:44-46 | the keys are exactly the pair names, and each key maps to the value of the last pair with that name |
| Fields.ToMapValues | test/tests/router.js:54-56 | every value in the map is the value of some pair with that name |
| Headers.FindHeader | test/tests/router.js:52 | the header found is the first one whose name equals the wanted name, ignoring case; none is found only when no name matches |
| Headers.HeaderValue | test/tests/router.js:52 | a header value is absent exactly when no header has that name, ignoring case |
| Headers.Unquote | test/tests/router.js:92 | a value wrapped in double quotes loses the quotes; any other value is unchanged |
| Headers.ParseParameterized | test/tests/router.js:92 | the media type read from a header value is always lower case |
| Headers.ParamValue | test/tests/router.js:92 | a parameter value is found exactly when some parameter has that name, and it is the first such parameter's value |
| Headers.ParseBareKind | test/tests/router.js:52 | a value without `;` is read as a media type with no parameters |
| Headers.KindBeforeSemicolon | test/tests/router.js:52-92 | whatever follows the first `;`, the media type is the trimmed, lower-cased text before it, and the parameters are read from the pieces after it |
| Headers.ContentTypeWithBoundary | test/tests/router.js:92 | `<kind>;boundary=<b>` reads as that kind with the one parameter `boundary` bound to `<b>`, for every bare lower-case kind and every plain token `<b>` |
| FormUrlEncoded.EncodeComponent | test/tests/router.js:52 | an encoded ASCII component contains neither `&` nor `=`, so it cannot break the pair structure |
| FormUrlEncoded.PercentDecode | test/tests/router.js:52 | decoding never lengthens the text, and text without `%` is left unchanged |
| FormUrlEncoded.DecodeEncodedChar | test/tests/router.js:52 | decoding an encoded ASCII character gives the character back |
| FormUrlEncoded.DecodeEncodedComponent | test/tests/router.js:52 | decoding an encoded ASCII component gives the component back |
| FormUrlEncoded.DecodeEncodedPair | test/tests/router.js:52 | an encoded pair decodes back to the pair |
| FormUrlEncoded.DecodeEncodedSequences | test/tests/router.js:52 | a list of encoded pairs decodes back to the list |
| FormUrlEncoded.Parse | test/tests/router.js:52 | an empty body has no pairs, and there is at most one pair per `&`-separated sequence; ParseSerialize proves it inverts the serializer |
| FormUrlEncoded.Decode | test/tests/router.js:52-56 | an empty body gives no fields, and the keys are exactly the names of the parsed pairs |
| FormUrlEncoded.ParseSerialize | test/tests/router.js:52-56 | parsing a serialized list of ASCII pairs gives the same list, in the same order |
| FormUrlEncoded.DecodeSerialize | test/tests/router.js:52-56 | decoding a serialized list of ASCII pairs gives the map in which the last pair with each name wins |
| JsonObject.ReadEscapedChar | test/tests/router.js:62 | the lexer reads the escaped form of any character back as that character, leaving the rest of the input |
| JsonObject.ParseEscaped | test/tests/router.js:62 | lexing an escaped string up to its closing quote gives the string back |
| JsonObject.LexSpelled | test/tests/router.js:62 | lexing the text of one token followed by more text gives that token in front of the lexed rest |
| JsonObject.LexRender | test/tests/router.js:62 | lexing the text of a token list gives the tokens back |
| JsonObject.Lex | test/tests/router.js:62 | a text lexes to no tokens exactly when it is all JSON white space; LexRender proves it inverts rendering |
| JsonObject.ParseMemberTokens | test/tests/router.js:62-66 | parsing the tokens of a member list gives the list |
| JsonObject.Parse | test/tests/router.js:62 | a text parses to an object without members exactly when its tokens are `{` and `}` |
| JsonObject.ParseSerialize | test/tests/router.js:62-66 | parsing a serialized flat object of strings gives the same members, in order |
| JsonObject.DecodeSerialize | test/tests/router.js:62-66 | decoding a serialized flat object gives the map in which the last member with each name wins |
| JsonObject.Decode | test/tests/router.js:62-66 | a body gives fields only when it is a JSON object with at least one string member; anything else gives none |
| Multipart.HeaderLine | test/tests/router.js:92 | a part header line yields a header exactly when it contains `:` |
| Multipart.FieldName | test/tests/router.js:92-94 | a field name is only read from a `Content-Disposition` header of kind `form-data`, and it is never empty |
| Multipart.DecodePart | test/tests/router.js:92-94 | a part yields a field only when it holds a blank line, and the field has a non-empty name |
| Multipart.FormFields | test/tests/router.js:100-102 | an empty boundary yields no fields; otherwise every field is what one chunk strictly between two boundary occurrences decodes to, every such chunk that decodes contributes its field however malformed the others are, and there is no field exactly when the boundary occurs fewer than twice or no such chunk decodes |
| Multipart.InnerChunks | test/tests/router.js:100-102 | whatever is kept from the chunks between the first and the last boundary comes from one of them, the value of every inner chunk that gives one is kept, and nothing is kept exactly when there are fewer than three chunks or none of the inner ones gives a value |
| Multipart.FieldsInOrder | test/tests/router.js:92-102 | the fields keep the order of the parts: cut the parts anywhere, and the fields are those of the parts before the cut followed by those after it |
| Multipart.NoBoundaryNoFields | test/tests/router.js:100-102 | a body in which the boundary never occurs yields no fields |
| Multipart.OneBoundaryNoFields | test/tests/router.js:100-102 | a body in which the boundary occurs exactly once yields no fields, even when the text after it is a well-formed part |
| Multipart.Decode | test/tests/router.js:100-102 | a body gives fields only when its boundary is not empty and occurs at least twice |
| Multipart.EncodeParts | test/tests/router.js:92 | each field is encoded as its own part, in order |
| Multipart.ReadNameParameter | test/tests/router.js:92 | the `name="…"` parameter written by the encoder reads back as the field name |
| Multipart.UnquoteQuoted | test/tests/router.js:92 | a quoted string loses exactly its quotes |
| Multipart.SplitDispositionValue | test/tests/router.js:92 | the disposition value splits at `;` into `form-data` and the name parameter |
| Multipart.ReadDispositionValue | test/tests/router.js:92 | the disposition value reads back as `form-data` with one `name` parameter |
| Multipart.ReadDisposition | test/tests/router.js:92 | the header block of an encoded part reads back as one `Content-Disposition` header |
| Multipart.ReadFieldName | test/tests/router.js:92-94 | the header block of an encoded part yields the field name |
| Multipart.BlankLineAfterHeaders | test/tests/router.js:92 | the first blank line of an encoded part is the one after its headers |
| Multipart.PartLayout | test/tests/router.js:92 | an encoded part is its header block, a blank line, the value and a line break |
| Multipart.DecodeEncodedPart | test/tests/router.js:92-94 | an encoded field decodes back to the field |
| Multipart.DecodeEachPart | test/tests/router.js:92-94 | parts that each decode to a field give those fields, in order |
| Multipart.FormFieldsEncode | test/tests/router.js:92-94 | the fields of an encoded body are the encoded fields, when no occurrence of the boundary starts inside a part, including one that runs on into the boundary after it |
| Multipart.DecodeEncode | test/tests/router.js:92-94 | decoding an encoded body gives the map in which the last field with each name wins |
| Bodies.MediaTypeOfValue | test/tests/router.js:52 | the body is form, JSON or multipart exactly when the media type says so; Headers.KindBeforeSemicolon shows the media type is the lower-cased text before the first `;` |
| Bodies.ParametersIgnored | test/tests/router.js:52-62 | parameters after `;` do not change a form, JSON or unknown media type: `Application/JSON; charset=utf-8` names JSON |
| Bodies.MultipartBoundary | test/tests/router.js:92 | `multipart/form-data;boundary=<b>` is read as form data whose boundary is `<b>`, for every plain token `<b>` |
| Bodies.MultipartWithoutBoundary | test/tests/router.js:92 | a multipart type without a `boundary` parameter has the empty boundary |
| Bodies.MediaTypeOf | test/tests/router.js:62 | with no `content-type` header the media type is unknown; a known type comes from such a header |
| Bodies.ParseBody | test/tests/router.js:52 | a body gives no fields when the request has no `content-type` header, when its media type is none of the three the router decodes, or when it is multipart without a boundary |
| Bodies.ParseQueryParameters | test/tests/router.js:42-46 | an already-structured query is returned as it is, and a raw query is decoded as a form body; ParseQueryRaw shows the two agree |
| Bodies.DecodeAsciiBytes | test/tests/router.js:72-78 | decoding the bytes of an ASCII string gives the string |
| Bodies.ParseBodyBytes | test/tests/router.js:72-86 | a byte body parses like the text it encodes |
| Bodies.ParseQueryRaw | test/tests/router.js:42-46 | a raw query string and an already-structured query give the same fields |
| Routing.Route.constructor | test/tests/router.js:22 | a new route holds its pattern, its segments and its position, and the base controller |
| Routing.Route.Use | test/tests/router.js:23 | `use` sets the route's controller and changes nothing else |
| Routing.FirstMatch | test/tests/router.js:31-36 | the index found is the first route whose pattern matches; none is found only when no route matches |
| Routing.Router.constructor | test/tests/router.js:9 | a new router has no routes |
| Routing.Router.AddRoute | test/tests/router.js:22 | a valid pattern appends one fresh route for it; an invalid one leaves the table unchanged and reports the compile error |
| Routing.Router.Find | test/tests/router.js:31-36 | the route found is the first route whose pattern matches the parsed path; none is found only when none matches |
| Routing.Router.Prepare | test/tests/router.js:108-112 | the record carries the request unchanged, with the parsed path, query and body, the first matching route, its captures, and the captures bound by parameter name |
| Routing.Dispatch | test/tests/router.js:118-135 | no route gives 404 and a method the controller lacks gives 501, both without error or payload; an error always comes with 500 and no payload; a payload only comes from a handler the route's controller has for the method |
| Routing.DispatchError | test/tests/router.js:118-121 | the error slot is filled exactly when a handler ran and raised an error |
| Routing.BaseControllerNotImplemented | test/tests/router.js:118-121 | a route bound to the base controller answers every method with 501 and no error |
| Routing.DispatchIgnoresClient | test/tests/router.js:132-135 | the client address never changes the outcome |
| RouterSuite.ParsePathExamples | test/tests/router.js:14-16 | `/abc/def/?q=2`, `/abc/def/` and `/abc/def` all parse to `/abc/def` |
| RouterSuite.CompileAbc | test/tests/router.js:22 | `/abc/{id}` compiles into a root literal, the literal `abc` and the parameter `id` |
| RouterSuite.ParsePathAbcIdQuery | test/tests/router.js:36 | `/abc/<id>?<query>` parses to `/abc/<id>` for any id |
| RouterSuite.MatchAbc | test/tests/router.js:31-33 | `/abc` matches `/abc/{id}` with no capture, and `/abc/<id>` matches it capturing the id |
| RouterSuite.FindAbcBare | test/tests/router.js:31-35 | `/abc`, `/abc/`, `/abc?a=1` and `/abc/?a=1` all fit the `/abc/{id}` route |
| RouterSuite.FindAbcOne | test/tests/router.js:33-36 | `/abc/1` and `/abc/1?a=1` fit the `/abc/{id}` route, capturing `1` |
| RouterSuite.AbcRouter | test/tests/router.js:9-25 | after `route('/abc/{id}')` and `use(Controller)` the router holds exactly that route, bound to the base controller |
| RouterSuite.FindExamples | test/tests/router.js:31-36 | each of the six request targets finds the route that was created, which is the one route the router holds |
| RouterSuite.PrepareAbc123 | test/tests/router.js:108-111 | `/abc/123` parses to itself and matches `/abc/{id}` capturing `123` |
| RouterSuite.PrepareAndDispatch | test/tests/router.js:108-135 | preparing `GET /abc/123` finds the `/abc/{id}` route and captures `123` as `matches[0]` and as `id`; the outcome is `Dispatch` of that record, with no error and status 501 |
| BodySuite.StructuredQuery | test/tests/router.js:42-46 | the already-parsed query `{a: '1', b: '2', c: '3'}` gives `a`, `b` and `c` |
| BodySuite.FormAbc | test/tests/router.js:52 | the pairs `a=1`, `b=2`, `c=3` serialize to `a=1&b=2&c=3` |
| BodySuite.FormBody | test/tests/router.js:52-56 | the form text body `a=1&b=2&c=3` gives `a`, `b` and `c` |
| BodySuite.FormBytesBody | test/tests/router.js:72-78 | the same form body sent as bytes gives `a`, `b` and `c` |
| BodySuite.JsonAbc | test/tests/router.js:62 | the object with members `a`, `b` and `c` serializes to `{"a":"1","b":"2","c":"3"}` |
| BodySuite.JsonBody | test/tests/router.js:62-66 | the JSON text body gives `a`, `b` and `c` |
| BodySuite.JsonBytesBody | test/tests/router.js:82-86 | the same JSON body sent as bytes gives `a`, `b` and `c` |
| BodySuite.MultipartContentType | test/tests/router.js:92 | `multipart/form-data;boundary=?` is read as form data with boundary `?` |
| BodySuite.EncodeSingle | test/tests/router.js:92 | a one-field multipart body is the boundary, the part and the boundary again |
| BodySuite.MultipartBody | test/tests/router.js:92-94 | the multipart body gives `testkey` bound to `testvalue` |
| BodySuite.MalformedMultipartBody | test/tests/router.js:100-102 | the malformed multipart body holds its boundary once, so it gives no fields |

## Left out

- The router's source file is not part of this model. Its behaviour is reconstructed from `test/tests/router.js` and the framework's documented design, as these points:
  - parsePath cuts the target at the first `?`, then removes one trailing `/` unless the path is the root.
  - A `{name}` component is a parameter. A parameter matches any non-empty component. Missing trailing parameters capture nothing.
  - A duplicated parameter name is a compile error.
  - The first matching route wins.
- Asynchrony: `dispatch` reports through a callback, `(err, status, headers, data)`. Here it is the function `Dispatch`, which returns that four-part outcome directly. The mocha `done` protocol is not modelled.
- Controllers: a controller is a map from HTTP method to a handler function. Handler bodies, controller subclasses, middleware and response rendering are not modelled.
- Dispatch status codes:
  - The 501 for an unimplemented method is the value the tests expect.
  - The 404 for a request with no route is an assumption of this model. The tests never dispatch a request without a route.
  - The 500 that goes with a handler error is a choice of this model.
- Repeated field names: when a body or query repeats a name, the last value wins. The tests never repeat a name, so this is an assumption of this model.
- Text decoding: Node's `Buffer` is modelled as a sequence of bytes. UTF-8 decoding covers ASCII only. A byte of 128 or more becomes U+FFFD, so multi-byte characters are not decoded.
- JSON: only a flat object whose values are all strings is decoded. Nested values, numbers, booleans and `null` make the body give no fields. The serializer writes control characters, `"` and `\` as `\u00XX` escapes; it exists only to state the round trip.
- Multipart:
  - The body is split on the boundary token exactly as given in `content-type`. The test vector carries no `--` prefix, unlike RFC 2046.
  - Each value is trimmed of surrounding whitespace.
  - The text before the first boundary and after the last is always dropped, whatever it holds. An unclosed final part, such as `?\r\nContent-Disposition: form-data; name="k"\r\n\r\nv`, carries a name and still gives no field (Multipart.OneBoundaryNoFields).
  - Chunks between two boundaries that carry no `form-data` disposition with a non-empty `name` are skipped.
  - File uploads, part `content-type` headers and encodings are not modelled.
- Multipart.FormFieldsEncode: is proved only for fields whose names are not empty and contain no `;` and no carriage return, whose values need no trimming, and whose parts hold no occurrence of the boundary. That includes an occurrence that starts inside a part and runs on into the boundary after it, such as a part ending in `a` with the boundary `ab`.
- FormUrlEncoded.DecodeSerialize: the round trip is proved for ASCII names and values only. Non-ASCII text would need UTF-8 percent-encoding.
- Bodies.ParseBodyBytes: is proved for ASCII text only, for the same reason.
- FormUrlEncoded.PercentDecode: each `%XX` escape becomes the one character with code XX. The bytes are not UTF-8 decoded, so `%C3%A9` gives two characters where section 5.1 of the WHATWG URL Standard gives `é`.
- JsonObject.Unescape: a `\u` escape in the range D800 to DFFF is refused. A surrogate pair such as `\uD83D\uDE00` therefore makes the body give no fields, where `JSON.parse` combines the pair into one character.
- Paths.ParsePath: parsing is idempotent only on normal paths. `/abc//` is not normal, as Paths.ParsePathStripsOneSlash shows.
- Prepare: it is a method of `Router` because it reads the route table. The request record keeps the route object, and Dispatch reads that route's controller. The test reads the named capture as `routeData.route.id`; the model keeps the named captures in the record's `params` map, and its `route` field holds the Route object.
- Headers.ParseParameterized: the parameter list is split on every `;`, and Headers.Unquote removes only the outer quotes. A quoted string holding `;` or a backslash escape is therefore misread: `multipart/form-data; boundary="a;b"` gives the boundary `"a`, where section 3.1.1.1 of RFC 7231 gives `a;b`. The header parser of the library is not part of this model.
- Header values that are arrays, and any header other than `content-type`, are not interpreted.
