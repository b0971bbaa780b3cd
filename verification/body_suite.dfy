/**
 * The body and query examples of the router's test suite: the fields
 * `a=1`, `b=2`, `c=3` sent as a form body and as a JSON object, each as text
 * and as bytes; one multipart field; a malformed multipart body; and a query
 * that arrives already structured. Each example is an instance of a lemma
 * about arbitrary fields, proved first.
 */
module BodySuite {
  import opened Wrappers
  import opened Text
  import opened Fields
  import opened Headers
  import FormUrlEncoded
  import JsonObject
  import Multipart
  import opened Bodies

  /** Three fields with distinct names map each name to its value. */
  lemma ToMapThree(p: Pair, q: Pair, r: Pair)
    requires p.0 != q.0 && p.0 != r.0 && q.0 != r.0
    ensures ToMap([p, q, r]) == map[p.0 := p.1, q.0 := q.1, r.0 := r.1]
  {
    var pairs := [p, q, r];
    assert IsLastWithName(pairs, 0) && IsLastWithName(pairs, 1) && IsLastWithName(pairs, 2);
    assert ToMap(pairs).Keys == {p.0, q.0, r.0};
  }

  /** A query that arrives as a mapping is returned as it is. */
  lemma StructuredQuery()
    ensures ParseQueryParameters(Structured(map["a" := "1", "b" := "2", "c" := "3"])) ==
            map["a" := "1", "b" := "2", "c" := "3"]
  {
  }

  // ---- application/x-www-form-urlencoded ----

  /** A single unreserved character encodes as itself. */
  lemma EncodeUnreserved(c: char)
    requires FormUrlEncoded.IsUnreserved(c) && c as int < 128
    ensures FormUrlEncoded.EncodeComponent([c]) == [c]
  {
    assert [c][1..] == [];
  }

  /** A field whose name and value are single unreserved characters encodes as `name=value`. */
  lemma EncodeSinglePair(k: char, v: char)
    requires FormUrlEncoded.IsUnreserved(k) && k as int < 128
    requires FormUrlEncoded.IsUnreserved(v) && v as int < 128
    ensures IsAscii([k]) && IsAscii([v])
    ensures FormUrlEncoded.EncodePair(([k], [v])) == [k, '=', v]
  {
    EncodeUnreserved(k);
    EncodeUnreserved(v);
  }

  /** A form body of several fields is the first field, an ampersand and the body of the rest. */
  lemma SerializeCons(p: Pair, rest: seq<Pair>)
    requires IsAscii(p.0) && IsAscii(p.1)
    requires FormUrlEncoded.AllAscii(rest) && rest != []
    ensures FormUrlEncoded.AllAscii([p] + rest)
    ensures FormUrlEncoded.Serialize([p] + rest) == FormUrlEncoded.EncodePair(p) + "&" + FormUrlEncoded.Serialize(rest)
  {
    var pairs := [p] + rest;
    assert pairs[1..] == rest && pairs[0] == p;
    assert forall i :: 0 <= i < |rest| ==> rest[i] == pairs[i + 1];
    var parts := FormUrlEncoded.EncodePairs(pairs);
    assert parts == [FormUrlEncoded.EncodePair(p)] + FormUrlEncoded.EncodePairs(rest);
    JoinCons(FormUrlEncoded.EncodePair(p), FormUrlEncoded.EncodePairs(rest), "&");
  }

  /** The form body of three fields. */
  lemma SerializeThree(p: Pair, q: Pair, r: Pair)
    requires IsAscii(p.0) && IsAscii(p.1)
    requires IsAscii(q.0) && IsAscii(q.1)
    requires IsAscii(r.0) && IsAscii(r.1)
    ensures FormUrlEncoded.AllAscii([p, q, r])
    ensures FormUrlEncoded.Serialize([p, q, r]) ==
            FormUrlEncoded.EncodePair(p) + "&" + FormUrlEncoded.EncodePair(q) + "&" + FormUrlEncoded.EncodePair(r)
  {
    var last := [r];
    assert FormUrlEncoded.EncodePairs(last) == [FormUrlEncoded.EncodePair(r)];
    assert FormUrlEncoded.Serialize(last) == FormUrlEncoded.EncodePair(r);
    Triple(p, q, r);
    SerializeCons(q, last);
    SerializeCons(p, [q, r]);
    JoinThree(FormUrlEncoded.EncodePair(p), FormUrlEncoded.EncodePair(q), FormUrlEncoded.EncodePair(r), "&");
  }

  /** Reassociation of a join of three, kept apart so that the serialization proofs stay small for the solver. */
  lemma JoinThree(a: string, b: string, c: string, d: string)
    ensures a + d + (b + d + c) == a + d + b + d + c
  {
  }

  /** Three elements in a row, built up from the back; kept apart so that the solver does not search for the grouping. */
  lemma Triple<T>(a: T, b: T, c: T)
    ensures [b] + [c] == [b, c] && [a] + [b, c] == [a, b, c]
  {
  }

  /** The form serialization of `a=1`, `b=2`, `c=3` is the body the suite sends. */
  lemma FormAbc()
    ensures FormUrlEncoded.AllAscii([("a", "1"), ("b", "2"), ("c", "3")])
    ensures FormUrlEncoded.Serialize([("a", "1"), ("b", "2"), ("c", "3")]) == "a=1&b=2&c=3"
  {
    EncodeSinglePair('a', '1');
    EncodeSinglePair('b', '2');
    EncodeSinglePair('c', '3');
    SerializeThree(("a", "1"), ("b", "2"), ("c", "3"));
    FormAbcText();
  }

  lemma FormAbcText()
    ensures ['a', '=', '1'] + "&" + ['b', '=', '2'] + "&" + ['c', '=', '3'] == "a=1&b=2&c=3"
  {
  }

  /** A `content-type` value without parameters, already trimmed and in lower case, names itself. */
  lemma BareContentType(value: string)
    requires ';' !in value && Trimmed(value) && IsLower(value)
    ensures ParseParameterized(value).kind == value
    ensures MediaTypeOf([Header("content-type", value)]) == MediaTypeOfValue(value)
  {
    ParseBareKind(value);
  }

  /** A body that is the form serialization of some fields, sent as a form, yields those fields. */
  lemma FormBodyOf(pairs: seq<Pair>, headers: seq<Header>)
    requires FormUrlEncoded.AllAscii(pairs) && MediaTypeOf(headers) == UrlEncoded
    ensures ParseBody(Text(FormUrlEncoded.Serialize(pairs)), headers) == ToMap(pairs)
  {
    FormUrlEncoded.DecodeSerialize(pairs);
  }

  lemma FormContentType()
    ensures MediaTypeOf([Header("content-type", "application/x-www-form-urlencoded")]) == UrlEncoded
  {
    UrlEncodedWord();
    BareContentType("application/x-www-form-urlencoded");
  }

  lemma UrlEncodedWord()
    ensures ';' !in "application/x-www-form-urlencoded"
    ensures Trimmed("application/x-www-form-urlencoded") && IsLower("application/x-www-form-urlencoded")
  {
  }

  /** `parseBody('a=1&b=2&c=3', {'content-type': 'application/x-www-form-urlencoded'})`. */
  lemma FormBody()
    ensures ParseBody(Text("a=1&b=2&c=3"), [Header("content-type", "application/x-www-form-urlencoded")]) ==
            map["a" := "1", "b" := "2", "c" := "3"]
  {
    FormAbc();
    FormContentType();
    FormBodyOf([("a", "1"), ("b", "2"), ("c", "3")], [Header("content-type", "application/x-www-form-urlencoded")]);
    ToMapThree(("a", "1"), ("b", "2"), ("c", "3"));
  }

  lemma FormTextAscii()
    ensures IsAscii("a=1&b=2&c=3")
  {
  }

  /** The same body handed over as a `Buffer` of bytes yields the same fields. */
  lemma FormBytesBody()
    ensures IsAscii("a=1&b=2&c=3")
    ensures ParseBody(Bytes(AsciiBytes("a=1&b=2&c=3")), [Header("content-type", "application/x-www-form-urlencoded")]) ==
            map["a" := "1", "b" := "2", "c" := "3"]
  {
    FormTextAscii();
    FormBody();
    ParseBodyBytes("a=1&b=2&c=3", [Header("content-type", "application/x-www-form-urlencoded")]);
  }

  // ---- application/json ----

  lemma RenderCons(t: JsonObject.Token, rest: seq<JsonObject.Token>)
    ensures JsonObject.Render([t] + rest) == JsonObject.Spell(t) + JsonObject.Render(rest)
  {
    assert ([t] + rest)[0] == t && ([t] + rest)[1..] == rest;
  }

  /** The tokens of one member and the punctuation after it. */
  function Group(p: Pair, t: JsonObject.Token): seq<JsonObject.Token> {
    [JsonObject.Str(p.0), JsonObject.Colon, JsonObject.Str(p.1), t]
  }

  /** The rendering of four tokens in front of a rest, kept apart so that the solver unfolds Render one token at a time. */
  lemma RenderChain(a: JsonObject.Token, b: JsonObject.Token, c: JsonObject.Token, d: JsonObject.Token, rest: seq<JsonObject.Token>)
    ensures JsonObject.Render([a] + ([b] + ([c] + ([d] + rest)))) ==
            JsonObject.Spell(a) + (JsonObject.Spell(b) + (JsonObject.Spell(c) + (JsonObject.Spell(d) + JsonObject.Render(rest))))
  {
    RenderCons(d, rest);
    RenderCons(c, [d] + rest);
    RenderCons(b, [c] + ([d] + rest));
    RenderCons(a, [b] + ([c] + ([d] + rest)));
  }

  /** Reassociation of five strings, kept apart so that the rendering proof stays small for the solver. */
  lemma Regroup(a: string, b: string, c: string, d: string, e: string)
    ensures a + (b + (c + (d + e))) == a + b + c + d + e
  {
  }

  /** The tokens of a member as nested concatenations, kept apart so that the solver does not search for the grouping. */
  lemma GroupTokens(p: Pair, t: JsonObject.Token, rest: seq<JsonObject.Token>)
    ensures Group(p, t) + rest == [JsonObject.Str(p.0)] + ([JsonObject.Colon] + ([JsonObject.Str(p.1)] + ([t] + rest)))
  {
  }

  lemma RenderGroup(p: Pair, t: JsonObject.Token, rest: seq<JsonObject.Token>)
    ensures JsonObject.Render(Group(p, t) + rest) ==
            JsonObject.Quote(p.0) + ":" + JsonObject.Quote(p.1) + JsonObject.Spell(t) + JsonObject.Render(rest)
  {
    GroupTokens(p, t, rest);
    RenderChain(JsonObject.Str(p.0), JsonObject.Colon, JsonObject.Str(p.1), t, rest);
    Regroup(JsonObject.Quote(p.0), ":", JsonObject.Quote(p.1), JsonObject.Spell(t), JsonObject.Render(rest));
  }

  /** Every member but the last is followed by a comma, the last by the closing brace. */
  lemma MemberTokensCons(p: Pair, rest: seq<Pair>)
    requires rest != []
    ensures JsonObject.MemberTokens([p] + rest) == Group(p, JsonObject.Comma) + JsonObject.MemberTokens(rest)
  {
    assert ([p] + rest)[0] == p && ([p] + rest)[1..] == rest;
  }

  lemma MemberTokensLast(r: Pair)
    ensures JsonObject.MemberTokens([r]) == Group(r, JsonObject.RightBrace)
  {
    assert [r][0] == r;
  }

  lemma ObjectTokensThree(p: Pair, q: Pair, r: Pair)
    ensures JsonObject.ObjectTokens([p, q, r]) ==
            [JsonObject.LeftBrace] + (Group(p, JsonObject.Comma) + (Group(q, JsonObject.Comma) + (Group(r, JsonObject.RightBrace) + [])))
  {
    Triple(p, q, r);
    MemberTokensLast(r);
    MemberTokensCons(q, [r]);
    MemberTokensCons(p, [q, r]);
  }

  /** The JSON text of three string members. */
  lemma JsonSerializeThree(p: Pair, q: Pair, r: Pair)
    ensures JsonObject.Serialize([p, q, r]) ==
            "{" + (JsonObject.Quote(p.0) + ":" + JsonObject.Quote(p.1) + "," +
            (JsonObject.Quote(q.0) + ":" + JsonObject.Quote(q.1) + "," +
            (JsonObject.Quote(r.0) + ":" + JsonObject.Quote(r.1) + "}" + "")))
  {
    ObjectTokensThree(p, q, r);
    var g3 := Group(r, JsonObject.RightBrace) + [];
    var g2 := Group(q, JsonObject.Comma) + g3;
    var g1 := Group(p, JsonObject.Comma) + g2;
    RenderCons(JsonObject.LeftBrace, g1);
    RenderGroup(p, JsonObject.Comma, g2);
    RenderGroup(q, JsonObject.Comma, g3);
    RenderGroup(r, JsonObject.RightBrace, []);
    assert JsonObject.Render([]) == "";
  }

  /** A one-character string that needs no escape is written between quotes. */
  lemma QuoteChar(c: char)
    requires c != '"' && c != '\\' && c as int >= 0x20
    ensures JsonObject.Quote([c]) == ['"', c, '"']
  {
    assert [c][1..] == [];
    assert JsonObject.EscapeChar(c) == [c];
    assert JsonObject.Escape([]) == "";
    assert JsonObject.Escape([c]) == [c];
    assert "\"" + [c] + "\"" == ['"', c, '"'];
  }

  /** One member `"k":"v"` with one-character name and value. */
  lemma JsonMember(k: char, v: char)
    requires k != '"' && k != '\\' && k as int >= 0x20
    requires v != '"' && v != '\\' && v as int >= 0x20
    ensures JsonObject.Quote([k]) + ":" + JsonObject.Quote([v]) == ['"', k, '"', ':', '"', v, '"']
  {
    QuoteChar(k);
    QuoteChar(v);
  }

  /** The body the suite sends, cut into its three members and punctuation. */
  lemma JsonTextPieces()
    ensures "{\"a\":\"1\",\"b\":\"2\",\"c\":\"3\"}" ==
            "{" + ("\"a\":\"1\"" + "," + ("\"b\":\"2\"" + "," + ("\"c\":\"3\"" + "}" + "")))
  {
  }

  /** The text the members `a`, `b`, `c` render to is the body the suite sends. */
  lemma JsonAbcText()
    ensures "{" + (JsonObject.Quote("a") + ":" + JsonObject.Quote("1") + "," +
            (JsonObject.Quote("b") + ":" + JsonObject.Quote("2") + "," +
            (JsonObject.Quote("c") + ":" + JsonObject.Quote("3") + "}" + ""))) ==
            "{\"a\":\"1\",\"b\":\"2\",\"c\":\"3\"}"
  {
    JsonMember('a', '1');
    JsonMember('b', '2');
    JsonMember('c', '3');
    JsonTextPieces();
  }

  /** The JSON serialization of `a`, `b`, `c` is the body the suite sends. */
  lemma JsonAbc()
    ensures JsonObject.Serialize([("a", "1"), ("b", "2"), ("c", "3")]) == "{\"a\":\"1\",\"b\":\"2\",\"c\":\"3\"}"
  {
    JsonSerializeThree(("a", "1"), ("b", "2"), ("c", "3"));
    JsonAbcText();
  }

  /** A body that is the JSON text of some string members, sent as JSON, yields those members. */
  lemma JsonBodyOf(pairs: seq<Pair>, headers: seq<Header>)
    requires MediaTypeOf(headers) == Json
    ensures ParseBody(Text(JsonObject.Serialize(pairs)), headers) == ToMap(pairs)
  {
    JsonObject.DecodeSerialize(pairs);
  }

  lemma JsonContentType()
    ensures MediaTypeOf([Header("content-type", "application/json")]) == Json
  {
    JsonWord();
    BareContentType("application/json");
  }

  lemma JsonWord()
    ensures ';' !in "application/json" && Trimmed("application/json") && IsLower("application/json")
  {
  }

  /** `parseBody('{"a":"1","b":"2","c":"3"}', {'content-type': 'application/json'})`. */
  lemma JsonBody()
    ensures ParseBody(Text("{\"a\":\"1\",\"b\":\"2\",\"c\":\"3\"}"), [Header("content-type", "application/json")]) ==
            map["a" := "1", "b" := "2", "c" := "3"]
  {
    JsonAbc();
    JsonContentType();
    JsonBodyOf([("a", "1"), ("b", "2"), ("c", "3")], [Header("content-type", "application/json")]);
    ToMapThree(("a", "1"), ("b", "2"), ("c", "3"));
  }

  lemma JsonTextAscii()
    ensures IsAscii("{\"a\":\"1\",\"b\":\"2\",\"c\":\"3\"}")
  {
  }

  /** The same body handed over as a `Buffer` of bytes yields the same fields. */
  lemma JsonBytesBody()
    ensures IsAscii("{\"a\":\"1\",\"b\":\"2\",\"c\":\"3\"}")
    ensures ParseBody(Bytes(AsciiBytes("{\"a\":\"1\",\"b\":\"2\",\"c\":\"3\"}")), [Header("content-type", "application/json")]) ==
            map["a" := "1", "b" := "2", "c" := "3"]
  {
    JsonTextAscii();
    JsonBody();
    ParseBodyBytes("{\"a\":\"1\",\"b\":\"2\",\"c\":\"3\"}", [Header("content-type", "application/json")]);
  }

  // ---- multipart/form-data ----

  lemma MultipartTypeText()
    ensures "multipart/form-data" + ";boundary=" + "?" == "multipart/form-data;boundary=?"
    ensures Trimmed("?") && ';' !in "?"
  {
  }

  /** `multipart/form-data;boundary=?` names a multipart body with the boundary `?`. */
  lemma MultipartContentType()
    ensures MediaTypeOf([Header("content-type", "multipart/form-data;boundary=?")]) == FormData("?")
  {
    MultipartTypeText();
    MultipartBoundary("?");
  }

  /** A body with a single field is the boundary, the field's part and the boundary again. */
  lemma EncodeSingle(boundary: string, p: Pair)
    ensures Multipart.Encode(boundary, [p]) == boundary + Multipart.EncodePart(p) + boundary
  {
    var e := Multipart.EncodePart(p);
    var chunks := [""] + Multipart.EncodeParts([p]) + [""];
    assert chunks == [""] + [e, ""];
    JoinCons("", [e, ""], boundary);
    assert [e, ""] == [e] + [""];
    JoinCons(e, [""], boundary);
    assert JoinOn([""], boundary) == "";
  }

  /** A character absent from the field and from the fixed text of a part is absent from the part. */
  lemma PartFreeOf(p: Pair, c: char)
    requires c !in p.0 && c !in p.1 && c != '\r' && c != '\n' && c != '"'
    requires c !in Multipart.DispositionName && c !in ": " && c !in "form-data; " && c !in "name="
    ensures NoEarlyOccurrence(Multipart.EncodePart(p), [c])
  {
    assert c !in Multipart.Crlf && c !in Multipart.BlankLine && c !in "\"";
    assert c !in Multipart.NameParameter(p.0);
    assert c !in Multipart.DispositionValue(p.0);
    assert c !in Multipart.Disposition(p.0);
    CharAbsent(Multipart.EncodePart(p), c);
  }

  /** The disposition line of the field `testkey`. */
  lemma TestDisposition()
    ensures Multipart.Disposition("testkey") == "Content-Disposition: form-data; name=\"testkey\""
  {
    TestDispositionValue();
    TestDispositionLine();
  }

  lemma TestDispositionValue()
    ensures "form-data; name=\"testkey\"" == "form-data; " + ("name=" + "\"" + "testkey" + "\"")
  {
  }

  lemma TestDispositionLine()
    ensures "Content-Disposition: form-data; name=\"testkey\"" == "Content-Disposition" + ": " + "form-data; name=\"testkey\""
  {
  }

  /** The one-field body of the suite is the encoding of `testkey=testvalue` with the boundary `?`. */
  lemma TestBody()
    ensures Multipart.Encode("?", [("testkey", "testvalue")]) ==
            "?" + "\r\n" + "Content-Disposition: form-data; name=\"testkey\"" + "\r\n\r\n" + "testvalue" + "\r\n" + "?"
  {
    EncodeSingle("?", ("testkey", "testvalue"));
    TestDisposition();
  }

  /** The field `testkey=testvalue` survives encoding with the boundary `?`. */
  lemma TestFieldEncodable()
    ensures Multipart.Encodable(("testkey", "testvalue"))
    ensures NoEarlyOccurrence(Multipart.EncodePart(("testkey", "testvalue")), "?")
  {
    TestFieldKept();
    TestFieldChars();
    PartFreeOf(("testkey", "testvalue"), '?');
  }

  lemma TestFieldKept()
    ensures Multipart.Encodable(("testkey", "testvalue"))
  {
  }

  lemma TestFieldChars()
    ensures '?' !in "testkey" && '?' !in "testvalue" && '?' !in Multipart.DispositionName
    ensures '?' !in ": " && '?' !in "form-data; " && '?' !in "name="
  {
  }

  /** A body that is the multipart encoding of one field, sent with its boundary, yields that field. */
  lemma MultipartBodyOf(boundary: string, p: Pair, headers: seq<Header>)
    requires boundary != "" && MediaTypeOf(headers) == FormData(boundary)
    requires Multipart.Encodable(p) && NoEarlyOccurrence(Multipart.EncodePart(p), boundary)
    ensures ParseBody(Text(Multipart.Encode(boundary, [p])), headers) == map[p.0 := p.1]
  {
    Multipart.DecodeEncode(boundary, [p]);
    assert IsLastWithName([p], 0);
  }

  /**
   * `parseBody('?\r\nContent-Disposition: form-data; name="testkey"\r\n\r\ntestvalue\r\n?',
   * {'content-type': 'multipart/form-data;boundary=?'})` yields `testkey` with the value `testvalue`.
   */
  lemma MultipartBody()
    ensures ParseBody(Text("?" + "\r\n" + "Content-Disposition: form-data; name=\"testkey\"" + "\r\n\r\n" + "testvalue" + "\r\n" + "?"),
                      [Header("content-type", "multipart/form-data;boundary=?")]) ==
            map["testkey" := "testvalue"]
  {
    TestFieldEncodable();
    TestBody();
    MultipartContentType();
    MultipartBodyOf("?", ("testkey", "testvalue"), [Header("content-type", "multipart/form-data;boundary=?")]);
  }

  lemma MalformedPieces()
    ensures "bad?multipart\r\nform\r\ndata" == "bad" + ['?'] + ("multipart" + "\r\n" + "form" + "\r\n" + "data")
  {
  }

  /** `parseBody('bad?multipart\r\nform\r\ndata', ...)`: a single boundary leaves no part, so no field. */
  lemma MalformedMultipartBody()
    ensures ParseBody(Text("bad?multipart\r\nform\r\ndata"), [Header("content-type", "multipart/form-data;boundary=?")]) == map[]
  {
    var rest := "multipart" + "\r\n" + "form" + "\r\n" + "data";
    assert '?' !in "multipart" && '?' !in "\r\n" && '?' !in "form" && '?' !in "data";
    CharAbsent("bad", '?');
    CharAbsent(rest, '?');
    Multipart.OneBoundaryNoFields("bad", "?", rest);
    MalformedPieces();
    MultipartContentType();
  }
}
