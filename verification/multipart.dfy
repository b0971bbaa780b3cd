/**
 * `multipart/form-data` bodies (RFC 7578). The body is cut at every
 * occurrence of the boundary token; the pieces strictly between the first and
 * the last occurrence are the parts, and the text before the first and after
 * the last is ignored. A part's header block ends at its first blank line; its
 * `Content-Disposition: form-data; name="..."` header names the field, and the
 * rest of the part, trimmed of the white space around it (the line break
 * before the next boundary included), is its value. A part that does not fit
 * this shape is skipped, so a malformed body gives no fields rather than an
 * error.
 */
module Multipart {
  import opened Wrappers
  import opened Text
  import opened Fields
  import opened Headers

  const Crlf: string := "\r\n"
  const BlankLine: string := "\r\n\r\n"
  const DispositionName: string := "Content-Disposition"

  /** One `Name: value` header line; a line without a colon is not a header. */
  function HeaderLine(line: string): (r: Option<Header>)
    ensures r.Some? <==> ':' in line
  {
    match IndexOf(line, ":")
    case Some(i) =>
      StartsWithChar(line[i..], ':');
      Some(Header(Trim(line[..i]), Trim(line[i + 1..])))
    case None =>
      assert forall j :: 0 <= j < |line| ==> line[j..][0] == line[j] && !StartsWith(line[j..], ":");
      None
  }

  /** The header lines of a part's header block, in order. */
  function HeaderLines(lines: seq<string>): (r: seq<Header>)
    ensures |r| <= |lines|
  {
    if lines == [] then []
    else
      var h := HeaderLine(lines[0]);
      (if h.Some? then [h.value] else []) + HeaderLines(lines[1..])
  }

  /** The field name a part's headers give: the non-empty `name` parameter of a `form-data` disposition. */
  function FieldName(headers: seq<Header>): (r: Option<string>)
    ensures r.Some? ==> r.value != ""
    ensures r.Some? ==> HeaderValue(headers, DispositionName).Some? &&
                        ParseParameterized(HeaderValue(headers, DispositionName).value).kind == "form-data"
  {
    var v := HeaderValue(headers, DispositionName);
    if v.None? then None
    else
      var d := ParseParameterized(v.value);
      var n := ParamValue(d.params, "name");
      if d.kind != "form-data" || n.None? || n.value == "" then None else n
  }

  /** The field one part carries; a part without a blank line or a usable disposition carries none. */
  function DecodePart(part: string): (r: Option<Pair>)
    ensures r.Some? ==> r.value.0 != "" && !Free(part, BlankLine)
  {
    var i := IndexOf(part, BlankLine);
    if i.None? then None
    else
      var name := FieldName(HeaderLines(SplitOn(part[..i.value], Crlf)));
      if name.None? then None else Some((name.value, Trim(part[i.value + |BlankLine|..])))
  }

  /** The fields of the parts, in order, malformed parts skipped. */
  function DecodeParts(parts: seq<string>): (r: seq<Pair>)
    ensures |r| <= |parts|
  {
    Kept(DecodePart, parts)
  }

  /**
   * The parts of a body are the chunks strictly between the first and the last
   * boundary: each value kept comes from one of them, the value of every one
   * of them that gives a value is kept, and nothing is kept exactly when there
   * are fewer than three chunks or none of the inner ones gives a value.
   */
  lemma InnerChunks<B>(f: string -> Option<B>, chunks: seq<string>)
    requires |chunks| >= 2
    ensures var r := Kept(f, chunks[1..|chunks| - 1]);
            && (r == [] <==> |chunks| < 3 || forall k :: 1 <= k < |chunks| - 1 ==> f(chunks[k]).None?)
            && (forall j :: 0 <= j < |r| ==> exists k :: 1 <= k < |chunks| - 1 && f(chunks[k]) == Some(r[j]))
            && forall k :: 1 <= k < |chunks| - 1 && f(chunks[k]).Some? ==> f(chunks[k]).value in r
  {
    var inner := chunks[1..|chunks| - 1];
    KeptEmpty(f, inner);
    var r := Kept(f, inner);
    forall k | 1 <= k < |chunks| - 1 && f(chunks[k]).Some? ensures f(chunks[k]).value in r {
      assert inner[k - 1] == chunks[k];
      KeptHas(f, inner, k - 1);
    }
    if forall k :: 1 <= k < |chunks| - 1 ==> f(chunks[k]).None? {
      forall k | 0 <= k < |inner| ensures f(inner[k]).None? {
        assert inner[k] == chunks[k + 1];
      }
    }
    if r == [] {
      forall k | 1 <= k < |chunks| - 1 ensures f(chunks[k]).None? {
        assert chunks[k] == inner[k - 1];
      }
    }
    forall j | 0 <= j < |r| ensures exists k :: 1 <= k < |chunks| - 1 && f(chunks[k]) == Some(r[j]) {
      KeptFrom(f, inner, j);
      var k :| 0 <= k < |inner| && f(inner[k]) == Some(r[j]);
      assert f(chunks[k + 1]) == Some(r[j]);
    }
  }

  /**
   * The fields of a body, in order. An empty boundary gives none; otherwise
   * every field is what one chunk strictly between two boundary occurrences
   * decodes to, every such chunk that decodes gives its field however
   * malformed the others are, and there is no field exactly when the boundary
   * occurs fewer than twice or no such chunk decodes.
   */
  function FormFields(body: string, boundary: string): (r: seq<Pair>)
    ensures boundary == "" ==> r == []
    ensures boundary != "" ==>
              var chunks := SplitOn(body, boundary);
              && (r == [] <==> |chunks| < 3 || forall k :: 1 <= k < |chunks| - 1 ==> DecodePart(chunks[k]).None?)
              && (forall j :: 0 <= j < |r| ==> exists k :: 1 <= k < |chunks| - 1 && DecodePart(chunks[k]) == Some(r[j]))
              && forall k :: 1 <= k < |chunks| - 1 && DecodePart(chunks[k]).Some? ==> DecodePart(chunks[k]).value in r
  {
    if boundary == "" then []
    else
      var chunks := SplitOn(body, boundary);
      if |chunks| < 2 then []
      else
        InnerChunks(DecodePart, chunks);
        DecodeParts(chunks[1..|chunks| - 1])
  }

  /** What is kept from the inner chunks is what is kept before a cut, then what is kept after it. */
  lemma InnerCut<B>(f: string -> Option<B>, chunks: seq<string>, i: nat)
    requires 1 <= i < |chunks|
    ensures Kept(f, chunks[1..|chunks| - 1]) == Kept(f, chunks[1..i]) + Kept(f, chunks[i..|chunks| - 1])
  {
    assert chunks[1..|chunks| - 1] == chunks[1..i] + chunks[i..|chunks| - 1];
    KeptAppend(f, chunks[1..i], chunks[i..|chunks| - 1]);
  }

  /**
   * The fields of a body keep the order of its parts: cut the parts anywhere,
   * and the fields are those of the parts before the cut, then those after.
   */
  lemma FieldsInOrder(body: string, boundary: string, i: nat)
    requires boundary != "" && 1 <= i < |SplitOn(body, boundary)|
    ensures var chunks := SplitOn(body, boundary);
            FormFields(body, boundary) == DecodeParts(chunks[1..i]) + DecodeParts(chunks[i..|chunks| - 1])
  {
    var chunks := SplitOn(body, boundary);
    InnerCut(DecodePart, chunks, i);
  }

  /** A body in which the boundary never occurs carries no field. */
  lemma NoBoundaryNoFields(body: string, boundary: string)
    requires Free(body, boundary)
    ensures FormFields(body, boundary) == []
  {
    if boundary != "" {
      SplitFree(body, boundary);
    }
  }

  /**
   * A body in which the boundary occurs exactly once carries no field, even
   * when the text after it is a well-formed part: a part is only read when a
   * second boundary closes it.
   */
  lemma OneBoundaryNoFields(x: string, boundary: string, y: string)
    requires boundary != "" && NoEarlyOccurrence(x, boundary) && Free(y, boundary)
    ensures FormFields(x + boundary + y, boundary) == []
  {
    SplitFree(y, boundary);
    SplitSplice(x, boundary, y);
  }

  /** A multipart body as a mapping, later fields overriding earlier ones. */
  function Decode(body: string, boundary: string): (r: map<string, string>)
    ensures r != map[] ==> boundary != "" && |SplitOn(body, boundary)| >= 3
  {
    ToMap(FormFields(body, boundary))
  }

  /** The disposition header line of a field called `name`. */
  function Disposition(name: string): string {
    DispositionName + ": " + DispositionValue(name)
  }

  function DispositionValue(name: string): string {
    "form-data; " + NameParameter(name)
  }

  function NameParameter(name: string): string {
    "name=" + "\"" + name + "\""
  }

  /** The part that carries one field. */
  function EncodePart(p: Pair): string {
    Crlf + Disposition(p.0) + BlankLine + p.1 + Crlf
  }

  function EncodeParts(pairs: seq<Pair>): (r: seq<string>)
    ensures |r| == |pairs|
    ensures forall i :: 0 <= i < |pairs| ==> r[i] == EncodePart(pairs[i])
  {
    if pairs == [] then [] else [EncodePart(pairs[0])] + EncodeParts(pairs[1..])
  }

  /** The body that carries the fields, in order, each part followed by the boundary. */
  function Encode(boundary: string, pairs: seq<Pair>): string {
    JoinOn([""] + EncodeParts(pairs) + [""], boundary)
  }

  /** A field name the disposition header carries intact: not empty, no line break, no `;`. */
  predicate EncodableName(name: string) {
    name != "" && '\r' !in name && ';' !in name
  }

  /** A field an encoded part carries intact: its name is encodable and its value is already trimmed. */
  predicate Encodable(p: Pair) {
    EncodableName(p.0) && Trimmed(p.1)
  }

  /** The name parameter is `name`, an equals sign and the quoted name. */
  lemma NameParameterShape(name: string)
    ensures var q := NameParameter(name);
            IndexOf(q, "=") == Some(4) && q[..4] == "name" && q[4 + 1..] == "\"" + name + "\""
  {
    var quoted := "\"" + name + "\"";
    assert NameParameter(name) == "name" + ['='] + quoted;
    IndexOfCharAfter("name", '=', quoted);
  }

  /** The name parameter, after the space that follows the semicolon, is read back. */
  lemma ReadNameParameter(name: string)
    ensures Parameter(" " + NameParameter(name)) == Some(("name", name))
  {
    NameParameterShape(name);
    TrimSpaceThen(NameParameter(name));
    NameWord();
    UnquoteQuoted(name);
  }

  /** A quoted string is trimmed and unquoted back to its content. */
  lemma UnquoteQuoted(x: string)
    ensures Unquote(Trim("\"" + x + "\"")) == x
  {
    var s := "\"" + x + "\"";
    assert |s| == |x| + 2 && s[1..|s| - 1] == x;
    assert Unquote(s) == x;
    TrimTrimmed(s);
  }

  /** The disposition value is `form-data` and the name parameter, split at the semicolon. */
  lemma SplitDispositionValue(name: string)
    requires ';' !in name
    ensures SplitOn(DispositionValue(name), ";") == ["form-data", " " + NameParameter(name)]
  {
    var piece := " " + NameParameter(name);
    assert DispositionValue(name) == "form-data" + ";" + piece;
    CharAbsent("form-data", ';');
    SplitSplice("form-data", ";", piece);
    assert ';' !in piece;
    CharAbsent(piece, ';');
    SplitFree(piece, ";");
  }

  /** The disposition value is read back as `form-data` with the one name parameter. */
  lemma ReadDispositionValue(name: string)
    requires ';' !in name
    ensures ParseParameterized(DispositionValue(name)) == Parameterized("form-data", [("name", name)])
  {
    var piece := " " + NameParameter(name);
    SplitDispositionValue(name);
    ReadNameParameter(name);
    assert Parameters([piece]) == [("name", name)];
    FormDataWord();
  }

  /** `name` is already trimmed and lower case, so it is read as it is. */
  lemma NameWord()
    ensures Lower(Trim("name")) == "name"
  {
    assert Trimmed("name") && IsLower("name");
    TrimTrimmed("name");
    LowerOfLower("name");
  }

  /** `form-data` is already trimmed and lower case, so it is read as it is. */
  lemma FormDataWord()
    ensures Lower(Trim("form-data")) == "form-data"
  {
    assert Trimmed("form-data") && IsLower("form-data");
    TrimTrimmed("form-data");
    LowerOfLower("form-data");
  }

  /** The header block of an encoded part is a line break and the disposition line. */
  lemma SplitDispositionBlock(name: string)
    requires EncodableName(name)
    ensures SplitOn(Crlf + Disposition(name), Crlf) == ["", Disposition(name)]
  {
    var line := Disposition(name);
    assert '\r' !in DispositionName && '\r' !in DispositionValue(name);
    assert '\r' !in line;
    FreeOfHeadChar(line, Crlf);
    SplitFree(line, Crlf);
    assert Crlf + line == "" + Crlf + line;
    SplitSplice("", Crlf, line);
  }

  /** The disposition line is its header name, a colon, a space and its value. */
  lemma DispositionLineShape(name: string)
    ensures var line := Disposition(name);
            var n := |DispositionName|;
            IndexOf(line, ":") == Some(n) && line[..n] == DispositionName && line[n + 1..] == " " + DispositionValue(name)
  {
    var value := DispositionValue(name);
    assert Disposition(name) == DispositionName + [':'] + (" " + value);
    IndexOfCharAfter(DispositionName, ':', " " + value);
  }

  /** The disposition line is read back as the disposition header. */
  lemma ReadDispositionLine(name: string)
    ensures HeaderLine(Disposition(name)) == Some(Header(DispositionName, DispositionValue(name)))
  {
    DispositionLineShape(name);
    TrimSpaceThen(DispositionValue(name));
    TrimTrimmed(DispositionName);
  }

  /** The header block of an encoded part holds the one disposition header. */
  lemma ReadDisposition(name: string)
    requires EncodableName(name)
    ensures HeaderLines(SplitOn(Crlf + Disposition(name), Crlf)) == [Header(DispositionName, DispositionValue(name))]
  {
    SplitDispositionBlock(name);
    ReadDispositionLine(name);
    assert HeaderLine("") == None;
  }

  /** The field name of an encoded part is read back. */
  lemma ReadFieldName(name: string)
    requires EncodableName(name)
    ensures FieldName(HeaderLines(SplitOn(Crlf + Disposition(name), Crlf))) == Some(name)
  {
    ReadDisposition(name);
    ReadDispositionValue(name);
  }

  /** The header block of an encoded part ends where its blank line starts. */
  lemma BlankLineAfterHeaders(h: string, t: string)
    requires |h| >= 3 && h[2] != '\r' && forall j :: 1 <= j < |h| ==> h[j] != '\r'
    ensures IndexOf(h + BlankLine + t, BlankLine) == Some(|h|)
  {
    var s := h + BlankLine + t;
    assert s[|h|..][..4] == BlankLine;
    forall j | 0 <= j < |h| ensures !StartsWith(s[j..], BlankLine) {
      if j == 0 {
        assert s[j..][2] == h[2];
      } else {
        assert s[j..][0] == h[j];
      }
    }
    IndexOfIs(s, BlankLine, |h|);
  }

  /** An encoded part is its header block, the blank line, the value and a line break. */
  lemma PartLayout(p: Pair)
    requires EncodableName(p.0)
    ensures var h := Crlf + Disposition(p.0);
            var part := EncodePart(p);
            IndexOf(part, BlankLine) == Some(|h|) && part[..|h|] == h && part[|h| + |BlankLine|..] == p.1 + Crlf
  {
    var h := Crlf + Disposition(p.0);
    var part := EncodePart(p);
    assert part == h + BlankLine + (p.1 + Crlf);
    HeaderBlockShape(p.0);
    BlankLineAfterHeaders(h, p.1 + Crlf);
  }

  /** The header block of an encoded part has no carriage return after its leading line break. */
  lemma HeaderBlockShape(name: string)
    requires EncodableName(name)
    ensures var h := Crlf + Disposition(name);
            |h| >= 3 && h[2] != '\r' && forall j :: 1 <= j < |h| ==> h[j] != '\r'
  {
    var line := Disposition(name);
    assert '\r' !in DispositionName && '\r' !in DispositionValue(name);
    assert '\r' !in line;
    var h := Crlf + line;
    forall j | 1 <= j < |h| ensures h[j] != '\r' {
      if j >= 2 {
        assert h[j] == line[j - 2];
      }
    }
  }

  /** An encoded part is read back as its field. */
  lemma DecodeEncodedPart(p: Pair)
    requires Encodable(p)
    ensures DecodePart(EncodePart(p)) == Some(p)
  {
    PartLayout(p);
    ReadFieldName(p.0);
    TrimDropsTrailing(p.1, Crlf);
  }

  /** Parts that are each read back as a field are read back as those fields, in order. */
  lemma DecodeEachPart(parts: seq<string>, pairs: seq<Pair>)
    requires |parts| == |pairs|
    requires forall i :: 0 <= i < |parts| ==> DecodePart(parts[i]) == Some(pairs[i])
    ensures DecodeParts(parts) == pairs
  {
    KeptEach(DecodePart, parts, pairs);
  }

  /**
   * An encoded body is read back as its fields, in order, when the boundary
   * does not occur inside any part.
   */
  lemma FormFieldsEncode(boundary: string, pairs: seq<Pair>)
    requires boundary != ""
    requires forall i :: 0 <= i < |pairs| ==> Encodable(pairs[i]) && NoEarlyOccurrence(EncodePart(pairs[i]), boundary)
    ensures FormFields(Encode(boundary, pairs), boundary) == pairs
  {
    var parts := EncodeParts(pairs);
    var chunks := [""] + parts + [""];
    assert Free(chunks[|chunks| - 1], boundary);
    SplitJoin(chunks, boundary);
    assert chunks[1..|chunks| - 1] == parts;
    forall i | 0 <= i < |pairs| ensures DecodePart(parts[i]) == Some(pairs[i]) {
      DecodeEncodedPart(pairs[i]);
    }
    DecodeEachPart(parts, pairs);
  }

  /** Decoding an encoded body gives the mapping of its fields. */
  lemma DecodeEncode(boundary: string, pairs: seq<Pair>)
    requires boundary != ""
    requires forall i :: 0 <= i < |pairs| ==> Encodable(pairs[i]) && NoEarlyOccurrence(EncodePart(pairs[i]), boundary)
    ensures Decode(Encode(boundary, pairs), boundary) == ToMap(pairs)
  {
    FormFieldsEncode(boundary, pairs);
  }
}
