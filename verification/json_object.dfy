/**
 * `application/json` bodies, restricted to what the router hands on: one JSON
 * object (RFC 8259) whose member values are all strings. Anything else, and any
 * syntax error, decodes to the empty mapping. A repeated member name keeps its
 * last value, as `JSON.parse` does. The text is first cut into tokens, then the
 * tokens are read as an object; the serializer is the partner both are proved
 * against.
 */
module JsonObject {
  import opened Wrappers
  import opened Text
  import opened Fields

  const Backspace: char := 8 as char
  const FormFeed: char := 12 as char

  /** The tokens a flat object of strings is made of. */
  datatype Token = LeftBrace | RightBrace | Colon | Comma | Str(text: string)

  /** The insignificant white space of section 2 of RFC 8259. */
  predicate IsJsonSpace(c: char) {
    c == ' ' || c == '\t' || c == '\n' || c == '\r'
  }

  /** The four hexadecimal digits of a `\u` escape, as a number. */
  function Hex4(s: string): (v: nat)
    requires |s| >= 4 && IsHexDigit(s[0]) && IsHexDigit(s[1]) && IsHexDigit(s[2]) && IsHexDigit(s[3])
    ensures v < 0x10000
  {
    4096 * HexValue(s[0]) + 256 * HexValue(s[1]) + 16 * HexValue(s[2]) + HexValue(s[3])
  }

  /**
   * The character an escape (the text after a backslash) stands for, and what
   * follows it. A `\u` escape of a UTF-16 surrogate (D800 to DFFF) is refused,
   * so a surrogate pair is not combined into one character.
   */
  function Unescape(s: string): (r: Option<(char, string)>)
    ensures r.Some? ==> |r.value.1| < |s|
  {
    if s == [] then None
    else if s[0] == '"' || s[0] == '\\' || s[0] == '/' then Some((s[0], s[1..]))
    else if s[0] == 'b' then Some((Backspace, s[1..]))
    else if s[0] == 'f' then Some((FormFeed, s[1..]))
    else if s[0] == 'n' then Some(('\n', s[1..]))
    else if s[0] == 'r' then Some(('\r', s[1..]))
    else if s[0] == 't' then Some(('\t', s[1..]))
    else if s[0] == 'u' && |s| >= 5 && IsHexDigit(s[1]) && IsHexDigit(s[2]) && IsHexDigit(s[3]) && IsHexDigit(s[4]) then
      var v := Hex4(s[1..5]);
      if 0xD800 <= v < 0xE000 then None else Some((v as char, s[5..]))
    else None
  }

  /** One character inside a string literal, which is not its closing quote, and the text after it. */
  function ReadChar(s: string): (r: Option<(char, string)>)
    requires s != [] && s[0] != '"'
    ensures r.Some? ==> |r.value.1| < |s|
  {
    if s[0] == '\\' then Unescape(s[1..])
    else if s[0] as int < 0x20 then None
    else Some((s[0], s[1..]))
  }

  /** The rest of a string literal after its opening quote: its characters and what follows the closing quote. */
  function ParseChars(s: string): (r: Option<(string, string)>)
    ensures r.Some? ==> |r.value.1| < |s|
    decreases |s|
  {
    if s == [] then None
    else if s[0] == '"' then Some(("", s[1..]))
    else
      var c := ReadChar(s);
      if c.None? then None
      else
        var more := ParseChars(c.value.1);
        if more.None? then None else Some(([c.value.0] + more.value.0, more.value.1))
  }

  function Prepend(t: Token, r: Option<seq<Token>>): Option<seq<Token>> {
    if r.None? then None else Some([t] + r.value)
  }

  /** The tokens of a JSON text, white space between them dropped. */
  function Lex(s: string): (r: Option<seq<Token>>)
    ensures r == Some([]) <==> forall i :: 0 <= i < |s| ==> IsJsonSpace(s[i])
    decreases |s|
  {
    if s == [] then Some([])
    else if IsJsonSpace(s[0]) then Lex(s[1..])
    else if s[0] == '{' then Prepend(LeftBrace, Lex(s[1..]))
    else if s[0] == '}' then Prepend(RightBrace, Lex(s[1..]))
    else if s[0] == ':' then Prepend(Colon, Lex(s[1..]))
    else if s[0] == ',' then Prepend(Comma, Lex(s[1..]))
    else if s[0] == '"' then
      var lit := ParseChars(s[1..]);
      if lit.None? then None else Prepend(Str(lit.value.0), Lex(lit.value.1))
    else None
  }

  /** The members of an object after its opening brace, up to its closing brace, which must be the last token. */
  function ParseMembers(ts: seq<Token>): (r: Option<seq<Pair>>)
    ensures r.Some? ==> r.value != []
    decreases |ts|
  {
    if |ts| >= 4 && ts[0].Str? && ts[1] == Colon && ts[2].Str? then
      var p := (ts[0].text, ts[2].text);
      if ts[3] == RightBrace && |ts| == 4 then Some([p])
      else if ts[3] == Comma then
        var more := ParseMembers(ts[4..]);
        if more.None? then None else Some([p] + more.value)
      else None
    else None
  }

  /** The members of a token sequence that is exactly one object with string values, in order. */
  function ParseObject(ts: seq<Token>): Option<seq<Pair>> {
    if ts == [LeftBrace, RightBrace] then Some([])
    else if ts != [] && ts[0] == LeftBrace then ParseMembers(ts[1..])
    else None
  }

  /** The members of a JSON text that is one flat object of strings; only `{}` has no members. */
  function Parse(text: string): (r: Option<seq<Pair>>)
    ensures r == Some([]) <==> Lex(text) == Some([LeftBrace, RightBrace])
  {
    var ts := Lex(text);
    if ts.None? then None else ParseObject(ts.value)
  }

  /** A JSON body as a mapping; a body that is not such an object gives the empty mapping. */
  function Decode(text: string): (r: map<string, string>)
    ensures r != map[] ==> Parse(text).Some? && Parse(text).value != []
  {
    var members := Parse(text);
    if members.None? then map[] else ToMap(members.value)
  }

  /**
   * One character inside a string literal. The quote, the backslash and the
   * control characters are written as `\u00XX` escapes; every other
   * character stands for itself.
   */
  function EscapeChar(c: char): (r: string)
    ensures r != [] && r[0] != '"'
  {
    if c == '"' || c == '\\' || c as int < 0x20 then "\\u00" + [UpperHex[c as int / 16], UpperHex[c as int % 16]]
    else [c]
  }

  function Escape(s: string): string {
    if s == [] then "" else EscapeChar(s[0]) + Escape(s[1..])
  }

  /** The string literal that stands for `s`. */
  function Quote(s: string): (r: string)
    ensures r != [] && r[0] == '"'
  {
    "\"" + Escape(s) + "\""
  }

  function Spell(t: Token): (r: string)
    ensures r != []
  {
    match t
    case LeftBrace => "{"
    case RightBrace => "}"
    case Colon => ":"
    case Comma => ","
    case Str(s) => Quote(s)
  }

  function Render(ts: seq<Token>): string {
    if ts == [] then "" else Spell(ts[0]) + Render(ts[1..])
  }

  /** The tokens of a non-empty member list and the closing brace. */
  function MemberTokens(pairs: seq<Pair>): (ts: seq<Token>)
    requires pairs != []
    ensures |ts| >= 4
  {
    [Str(pairs[0].0), Colon, Str(pairs[0].1)]
    + (if |pairs| == 1 then [RightBrace] else [Comma] + MemberTokens(pairs[1..]))
  }

  function ObjectTokens(pairs: seq<Pair>): seq<Token> {
    if pairs == [] then [LeftBrace, RightBrace] else [LeftBrace] + MemberTokens(pairs)
  }

  /** The JSON object text with the given string members, in order. */
  function Serialize(pairs: seq<Pair>): string {
    Render(ObjectTokens(pairs))
  }

  /** An escaped character is read back as itself, whatever follows it. */
  lemma ReadEscapedChar(c: char, t: string)
    ensures ReadChar(EscapeChar(c) + t) == Some((c, t))
  {
    if c == '"' || c == '\\' || c as int < 0x20 {
      ReadUnicodeEscape(c, t);
    } else {
      assert (EscapeChar(c) + t)[1..] == t;
    }
  }

  /** The case of ReadEscapedChar for a character written as a `\u00XX` escape. */
  lemma ReadUnicodeEscape(c: char, t: string)
    requires c == '"' || c == '\\' || c as int < 0x20
    ensures ReadChar(EscapeChar(c) + t) == Some((c, t))
  {
    var hi, lo := c as int / 16, c as int % 16;
    HexDigitValue(hi);
    HexDigitValue(lo);
    UnicodeLayout(UpperHex[hi], UpperHex[lo], t);
    var u := (EscapeChar(c) + t)[1..];
    assert Hex4(u[1..5]) == c as int;
  }

  /** Where the parts of a `\u00XX` escape sit, whatever follows it. */
  lemma UnicodeLayout(h: char, l: char, t: string)
    ensures var u := ("\\u00" + [h, l] + t)[1..];
            |u| >= 5 && u[0] == 'u' && u[1..5] == ['0', '0', h, l] && u[5..] == t
  {
  }

  /** The escaped characters of a string followed by the closing quote are read back as the string. */
  lemma {:induction false} ParseEscaped(s: string, t: string)
    ensures ParseChars(Escape(s) + "\"" + t) == Some((s, t))
  {
    if s == [] {
      assert Escape(s) + "\"" + t == "\"" + t;
      assert ("\"" + t)[1..] == t;
    } else {
      ParseEscaped(s[1..], t);
      ParseEscapedStep(s, t);
    }
  }

  /** The step of ParseEscaped: the first escaped character is read in front of the rest. */
  lemma ParseEscapedStep(s: string, t: string)
    requires s != []
    requires ParseChars(Escape(s[1..]) + "\"" + t) == Some((s[1..], t))
    ensures ParseChars(Escape(s) + "\"" + t) == Some((s, t))
  {
    var tail := Escape(s[1..]) + "\"" + t;
    var whole := Escape(s) + "\"" + t;
    assert whole == EscapeChar(s[0]) + tail;
    ReadEscapedChar(s[0], tail);
    calc {
      ParseChars(whole);
    == { assert whole[0] != '"'; }
      Some(([s[0]] + s[1..], t));
    == { assert [s[0]] + s[1..] == s; }
      Some((s, t));
    }
  }

  /** A quoted string is lexed back as one string token, whatever follows it. */
  lemma LexQuoted(x: string, t: string)
    ensures Lex(Quote(x) + t) == Prepend(Str(x), Lex(t))
  {
    var s := Quote(x) + t;
    assert s[0] == '"' && s[1..] == Escape(x) + "\"" + t;
    ParseEscaped(x, t);
    assert ParseChars(s[1..]) == Some((x, t));
  }

  /** A punctuation token is lexed back as itself, whatever follows it. */
  lemma LexPunctuation(tok: Token, t: string)
    requires !tok.Str?
    ensures Lex(Spell(tok) + t) == Prepend(tok, Lex(t))
  {
    var s := Spell(tok) + t;
    assert |Spell(tok)| == 1 && s[0] == Spell(tok)[0] && s[1..] == t;
  }

  /** A spelled token is lexed back as itself, whatever follows it. */
  lemma LexSpelled(tok: Token, t: string)
    ensures Lex(Spell(tok) + t) == Prepend(tok, Lex(t))
  {
    if tok.Str? {
      LexQuoted(tok.text, t);
    } else {
      LexPunctuation(tok, t);
    }
  }

  /** Lexing a rendered token sequence gives it back. */
  lemma {:induction false} LexRender(ts: seq<Token>)
    ensures Lex(Render(ts)) == Some(ts)
  {
    if ts != [] {
      LexSpelled(ts[0], Render(ts[1..]));
      LexRender(ts[1..]);
      HeadTail(ts);
    }
  }

  /** The member tokens of a non-empty list are read back as the list. */
  lemma {:induction false} ParseMemberTokens(pairs: seq<Pair>)
    requires pairs != []
    ensures ParseMembers(MemberTokens(pairs)) == Some(pairs)
  {
    var ts := MemberTokens(pairs);
    if |pairs| == 1 {
      assert [pairs[0]] == pairs;
    } else {
      assert ts[4..] == MemberTokens(pairs[1..]);
      ParseMemberTokens(pairs[1..]);
      HeadTail(pairs);
    }
  }

  /** Parsing a serialized object gives back exactly its members, in order. */
  lemma ParseSerialize(pairs: seq<Pair>)
    ensures Parse(Serialize(pairs)) == Some(pairs)
  {
    var ts := ObjectTokens(pairs);
    LexRender(ts);
    if pairs != [] {
      assert ts[1..] == MemberTokens(pairs);
      ParseMemberTokens(pairs);
    }
  }

  /** Decoding a serialized object gives the mapping of its members. */
  lemma DecodeSerialize(pairs: seq<Pair>)
    ensures Decode(Serialize(pairs)) == ToMap(pairs)
  {
    ParseSerialize(pairs);
  }
}
