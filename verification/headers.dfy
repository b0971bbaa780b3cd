/**
 * Request headers and the parameterised header values the body decoder reads:
 * `Content-Type: multipart/form-data;boundary=?` (section 3.1.1.1 of RFC 7231)
 * and `Content-Disposition: form-data; name="testkey"` (section 4.2 of RFC 7578).
 */
module Headers {
  import opened Wrappers
  import opened Text
  import opened Fields

  /** One request header, as the transport layer hands it over. */
  datatype Header = Header(name: string, value: string)

  /** Header names are compared without regard to ASCII case. */
  predicate SameName(a: string, b: string) {
    Lower(a) == Lower(b)
  }

  /** The position of the first header called `name`, in any case. */
  function FindHeader(headers: seq<Header>, name: string): (r: Option<nat>)
    ensures r.Some? ==> r.value < |headers| && SameName(headers[r.value].name, name)
    ensures r.Some? ==> forall j :: 0 <= j < r.value ==> !SameName(headers[j].name, name)
    ensures r.None? ==> forall j :: 0 <= j < |headers| ==> !SameName(headers[j].name, name)
  {
    if headers == [] then None
    else if SameName(headers[0].name, name) then Some(0)
    else
      match FindHeader(headers[1..], name)
      case Some(i) => Some(i + 1)
      case None => None
  }

  /** The value of the first header called `name`, in any case. */
  function HeaderValue(headers: seq<Header>, name: string): (r: Option<string>)
    ensures r.None? <==> forall j :: 0 <= j < |headers| ==> !SameName(headers[j].name, name)
    ensures r.Some? ==> exists i :: 0 <= i < |headers| && SameName(headers[i].name, name) && headers[i].value == r.value
  {
    match FindHeader(headers, name)
    case Some(i) => Some(headers[i].value)
    case None => None
  }

  /** A header value `kind; name=value; ...`: its lower-cased leading token and its parameters in order. */
  datatype Parameterized = Parameterized(kind: string, params: seq<Pair>)

  /** A parameter value without the double quotes of a quoted-string. */
  function Unquote(s: string): (r: string)
    ensures |s| >= 2 && s[0] == '"' && s[|s| - 1] == '"' ==> "\"" + r + "\"" == s
    ensures !(|s| >= 2 && s[0] == '"' && s[|s| - 1] == '"') ==> r == s
  {
    if |s| >= 2 && s[0] == '"' && s[|s| - 1] == '"' then s[1..|s| - 1] else s
  }

  /** One `name=value` parameter; a piece without `=` is not a parameter. */
  function Parameter(piece: string): Option<Pair>
  {
    var p := Trim(piece);
    match IndexOf(p, "=")
    case Some(i) => Some((Lower(Trim(p[..i])), Unquote(Trim(p[i + 1..]))))
    case None => None
  }

  /** The parameters among the pieces, in order. */
  function Parameters(pieces: seq<string>): (r: seq<Pair>)
    ensures |r| <= |pieces|
  {
    if pieces == [] then []
    else
      (match Parameter(pieces[0]) case Some(p) => [p] case None => []) + Parameters(pieces[1..])
  }

  /** Splits a header value at its semicolons into the leading token and the parameters. */
  function ParseParameterized(value: string): (r: Parameterized)
    ensures IsLower(r.kind)
  {
    var pieces := SplitOn(value, ";");
    Parameterized(Lower(Trim(pieces[0])), Parameters(pieces[1..]))
  }

  /** The value of the first parameter called `name`. */
  function ParamValue(params: seq<Pair>, name: string): (r: Option<string>)
    ensures r.None? <==> forall j :: 0 <= j < |params| ==> params[j].0 != name
    ensures r.Some? ==> exists i :: 0 <= i < |params| && params[i] == (name, r.value) &&
                                    forall j :: 0 <= j < i ==> params[j].0 != name
  {
    if params == [] then None
    else if params[0].0 == name then Some(params[0].1)
    else
      var r := ParamValue(params[1..], name);
      assert forall j :: 1 <= j < |params| ==> params[j] == params[1..][j - 1];
      r
  }

  /**
   * Whatever follows the first `;`, the kind is the trimmed, lower-cased text
   * before it, and the parameters are read from the pieces after it:
   * `Application/JSON; charset=utf-8` is of kind `application/json`.
   */
  lemma KindBeforeSemicolon(k: string, rest: string)
    requires ';' !in k
    ensures ParseParameterized(k + ";" + rest) == Parameterized(Lower(Trim(k)), Parameters(SplitOn(rest, ";")))
  {
    CharAbsent(k, ';');
    SplitSplice(k, ";", rest);
  }

  /** A value without parameters is its own kind when it is already trimmed and lower-case. */
  lemma ParseBareKind(value: string)
    requires ';' !in value && Trimmed(value) && IsLower(value)
    ensures ParseParameterized(value) == Parameterized(value, [])
  {
    CharAbsent(value, ';');
    SplitFree(value, ";");
    TrimTrimmed(value);
    LowerOfLower(value);
  }

  /** `boundary=<b>` is already trimmed, and its first equals sign follows `boundary`. */
  lemma BoundaryPiece(b: string)
    requires b != "" && Trimmed(b)
    ensures var piece := "boundary=" + b;
            Trim(piece) == piece && IndexOf(piece, "=") == Some(8) && piece[..8] == "boundary" && piece[9..] == b
  {
    var piece := "boundary=" + b;
    assert piece == "boundary" + ['='] + b;
    IndexOfCharAfter("boundary", '=', b);
    assert piece[0] == 'b' && piece[|piece| - 1] == b[|b| - 1];
    TrimTrimmed(piece);
  }

  lemma BoundaryWord()
    ensures Lower(Trim("boundary")) == "boundary"
  {
    TrimTrimmed("boundary");
    LowerOfLower("boundary");
  }

  /** `boundary=<b>` is the parameter `boundary` with the value `<b>` when `<b>` is a plain token. */
  lemma BoundaryParameter(b: string)
    requires b != "" && Trimmed(b) && b[0] != '"'
    ensures Parameters(["boundary=" + b]) == [("boundary", b)]
  {
    BoundaryPiece(b);
    BoundaryWord();
    TrimTrimmed(b);
    assert Parameter("boundary=" + b) == Some(("boundary", b));
    assert ["boundary=" + b][1..] == [];
  }

  /** `<kind>;boundary=<b>` is read as the kind with the one `boundary` parameter. */
  lemma ContentTypeWithBoundary(kind: string, b: string)
    requires ';' !in kind && Trimmed(kind) && IsLower(kind)
    requires b != "" && Trimmed(b) && b[0] != '"' && ';' !in b
    ensures ParseParameterized(kind + ";boundary=" + b) == Parameterized(kind, [("boundary", b)])
  {
    var piece := "boundary=" + b;
    assert kind + ";boundary=" + b == kind + ";" + piece;
    CharAbsent(kind, ';');
    assert ';' !in piece;
    CharAbsent(piece, ';');
    SplitFree(piece, ";");
    SplitSplice(kind, ";", piece);
    assert SplitOn(kind + ";" + piece, ";")[1..] == [piece];
    BoundaryParameter(b);
    TrimTrimmed(kind);
    LowerOfLower(kind);
  }
}
