/**
 * `Router.parseBody` and `Router.parseQueryParameters`: the content type picks
 * the decoder, a body given as bytes is first turned into text, and every
 * failure degrades to an empty mapping, never to an error.
 */
module Bodies {
  import opened Wrappers
  import opened Text
  import opened Fields
  import opened Headers
  import FormUrlEncoded
  import JsonObject
  import Multipart

  newtype byte = x: int | 0 <= x < 256

  /** A request body as the transport hands it over: text, or raw bytes (a `Buffer`). */
  datatype Body = Text(text: string) | Bytes(data: seq<byte>)

  /** The character a byte that is not ASCII decodes to. */
  const Replacement: char := 0xFFFD as char

  /** Bytes as text: an ASCII byte is its own character, any other byte the replacement character. */
  function DecodeBytes(data: seq<byte>): (r: string)
    ensures |r| == |data|
    ensures forall i :: 0 <= i < |data| ==> r[i] == if data[i] < 128 then data[i] as int as char else Replacement
  {
    seq(|data|, i requires 0 <= i < |data| => if data[i] < 128 then data[i] as int as char else Replacement)
  }

  /** The bytes of an ASCII text. */
  function AsciiBytes(s: string): (r: seq<byte>)
    requires IsAscii(s)
    ensures |r| == |s|
    ensures forall i :: 0 <= i < |s| ==> r[i] as int == s[i] as int
  {
    seq(|s|, i requires 0 <= i < |s| => s[i] as int as byte)
  }

  function BodyText(body: Body): string {
    match body
    case Text(s) => s
    case Bytes(data) => DecodeBytes(data)
  }

  /** The media types the router has a decoder for. */
  const DecodedKinds: set<string> := {"application/x-www-form-urlencoded", "application/json", "multipart/form-data"}

  /** The content types the router decodes; a multipart type carries its boundary. */
  datatype MediaType = UrlEncoded | Json | FormData(boundary: string) | Unknown

  /** The media type a `content-type` value names, with the boundary of a multipart type. */
  function MediaTypeOfValue(value: string): (m: MediaType)
    ensures m.UrlEncoded? <==> ParseParameterized(value).kind == "application/x-www-form-urlencoded"
    ensures m.Json? <==> ParseParameterized(value).kind == "application/json"
    ensures m.FormData? <==> ParseParameterized(value).kind == "multipart/form-data"
  {
    var d := ParseParameterized(value);
    if d.kind == "application/x-www-form-urlencoded" then UrlEncoded
    else if d.kind == "application/json" then Json
    else if d.kind == "multipart/form-data" then
      var b := ParamValue(d.params, "boundary");
      FormData(if b.Some? then b.value else "")
    else Unknown
  }

  /**
   * Parameters do not change a form or JSON media type, nor an unknown one:
   * `k; charset=utf-8` names the same media type as `k` alone.
   */
  lemma ParametersIgnored(k: string, rest: string)
    requires ';' !in k && Lower(Trim(k)) != "multipart/form-data"
    ensures MediaTypeOfValue(k + ";" + rest) == MediaTypeOfValue(k)
  {
    KindBeforeSemicolon(k, rest);
    CharAbsent(k, ';');
    SplitFree(k, ";");
  }

  /** The media type `multipart/form-data` is a bare lower-case token. */
  lemma MultipartKindBare()
    ensures ';' !in "multipart/form-data" && Trimmed("multipart/form-data") && IsLower("multipart/form-data")
  {
  }

  /**
   * `multipart/form-data;boundary=<b>` names a multipart body whose boundary is
   * `<b>`, for every plain token `<b>` (not empty, not quoted, without
   * surrounding white space or `;`).
   */
  lemma MultipartBoundary(b: string)
    requires b != "" && Trimmed(b) && b[0] != '"' && ';' !in b
    ensures MediaTypeOfValue("multipart/form-data" + ";boundary=" + b) == FormData(b)
  {
    MultipartKindBare();
    ContentTypeWithBoundary("multipart/form-data", b);
  }

  /** A multipart type without a `boundary` parameter has the empty boundary. */
  lemma MultipartWithoutBoundary()
    ensures MediaTypeOfValue("multipart/form-data") == FormData("")
  {
    MultipartKindBare();
    ParseBareKind("multipart/form-data");
  }

  /** The media type the `content-type` header names, looked up without regard to case. */
  function MediaTypeOf(headers: seq<Header>): (m: MediaType)
    ensures HeaderValue(headers, "content-type").None? ==> m == Unknown
    ensures m != Unknown ==> exists i :: 0 <= i < |headers| && SameName(headers[i].name, "content-type")
  {
    var v := HeaderValue(headers, "content-type");
    if v.None? then Unknown else MediaTypeOfValue(v.value)
  }

  /**
   * The fields of a request body, by the decoder its content type picks. A
   * request without a `content-type` header, with a media type the router does
   * not decode, or with a multipart type that names no boundary gets none.
   */
  function ParseBody(body: Body, headers: seq<Header>): (r: map<string, string>)
    ensures HeaderValue(headers, "content-type").None? ==> r == map[]
    ensures var v := HeaderValue(headers, "content-type");
            v.Some? && ParseParameterized(v.value).kind !in DecodedKinds ==> r == map[]
    ensures MediaTypeOf(headers) == FormData("") ==> r == map[]
  {
    var text := BodyText(body);
    match MediaTypeOf(headers)
    case UrlEncoded => FormUrlEncoded.Decode(text)
    case Json => JsonObject.Decode(text)
    case FormData(boundary) => Multipart.Decode(text, boundary)
    case Unknown => map[]
  }

  /** A query given either as its raw text or as the mapping an earlier stage already made of it. */
  datatype QuerySource = Raw(query: string) | Structured(fields: map<string, string>)

  /** `router.parseQueryParameters`: a structured query is kept as it is, a raw one is decoded as a form body. */
  function ParseQueryParameters(source: QuerySource): (r: map<string, string>)
    ensures source.Structured? ==> r == source.fields
    ensures source.Raw? ==> r == FormUrlEncoded.Decode(source.query)
  {
    match source
    case Raw(query) => FormUrlEncoded.Decode(query)
    case Structured(fields) => fields
  }

  /** The bytes of an ASCII text decode back to that text. */
  lemma DecodeAsciiBytes(s: string)
    requires IsAscii(s)
    ensures DecodeBytes(AsciiBytes(s)) == s
  {
    var r := DecodeBytes(AsciiBytes(s));
    assert forall i :: 0 <= i < |s| ==> r[i] == s[i];
  }

  /** A body given as the bytes of an ASCII text decodes to the same fields as the text itself. */
  lemma ParseBodyBytes(s: string, headers: seq<Header>)
    requires IsAscii(s)
    ensures ParseBody(Bytes(AsciiBytes(s)), headers) == ParseBody(Text(s), headers)
  {
    DecodeAsciiBytes(s);
  }

  /** A structured query passes through unchanged, and a raw query is decoded as a form body. */
  lemma ParseQueryRaw(pairs: seq<Pair>)
    requires FormUrlEncoded.AllAscii(pairs)
    ensures ParseQueryParameters(Raw(FormUrlEncoded.Serialize(pairs))) == ToMap(pairs)
    ensures ParseQueryParameters(Structured(ToMap(pairs))) == ToMap(pairs)
  {
    FormUrlEncoded.DecodeSerialize(pairs);
  }
}
