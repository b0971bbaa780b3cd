/**
 * `application/x-www-form-urlencoded` bodies and raw query strings
 * (`'a=1&b=2&c=3'`), decoded after the parser of section 5.1 of the WHATWG
 * URL Standard: split on `&`, skip empty sequences, cut each sequence at its
 * first `=`, turn `+` into a space and percent-decode both halves. Unlike that
 * parser, the percent-decoded bytes are not read as UTF-8: each `%XX` escape
 * is the one character with code XX, so the two agree on ASCII text only. The
 * serializer of section 5.2 is the partner the parser is proved against.
 */
module FormUrlEncoded {
  import opened Wrappers
  import opened Text
  import opened Fields

  /**
   * Percent-decoding: `%` followed by two hexadecimal digits stands for the
   * character with that code (not for a UTF-8 byte); every other character
   * stands for itself.
   */
  function PercentDecode(s: string): (r: string)
    ensures |r| <= |s|
    ensures '%' !in s ==> r == s
    decreases |s|
  {
    if s == [] then ""
    else if s[0] == '%' && |s| >= 3 && IsHexDigit(s[1]) && IsHexDigit(s[2]) then
      [(16 * HexValue(s[1]) + HexValue(s[2])) as char] + PercentDecode(s[3..])
    else [s[0]] + PercentDecode(s[1..])
  }

  function PlusToSpace(s: string): (r: string)
    ensures |r| == |s|
    ensures forall i :: 0 <= i < |s| ==> r[i] == if s[i] == '+' then ' ' else s[i]
  {
    seq(|s|, i requires 0 <= i < |s| => if s[i] == '+' then ' ' else s[i])
  }

  /** A name or a value as it appears in the body, decoded. */
  function DecodeComponent(s: string): string {
    PercentDecode(PlusToSpace(s))
  }

  /** One non-empty `name=value` sequence; without `=` the whole sequence is the name and the value is empty. */
  function DecodeSequence(s: string): Pair {
    match IndexOf(s, "=")
    case Some(i) => (DecodeComponent(s[..i]), DecodeComponent(s[i + 1..]))
    case None => (DecodeComponent(s), "")
  }

  /** The pairs of the non-empty sequences, in order. */
  function DecodeSequences(seqs: seq<string>): (r: seq<Pair>)
    ensures |r| <= |seqs|
  {
    if seqs == [] then []
    else (if seqs[0] == "" then [] else [DecodeSequence(seqs[0])]) + DecodeSequences(seqs[1..])
  }

  /** The name/value pairs of a form body or query string, in order. */
  function Parse(s: string): (r: seq<Pair>)
    ensures s == "" ==> r == []
    ensures |r| <= |SplitOn(s, "&")|
  {
    DecodeSequences(SplitOn(s, "&"))
  }

  /** A form body or query string as a mapping; a repeated name keeps its last value. */
  function Decode(s: string): (r: map<string, string>)
    ensures s == "" ==> r == map[]
    ensures r.Keys == set i | 0 <= i < |Parse(s)| :: Parse(s)[i].0
  {
    ToMap(Parse(s))
  }

  /** The characters the serializer leaves alone. */
  predicate IsUnreserved(c: char) {
    '0' <= c <= '9' || 'a' <= c <= 'z' || 'A' <= c <= 'Z' || c == '*' || c == '-' || c == '.' || c == '_'
  }

  function EncodeChar(c: char): (r: string)
    requires c as int < 128
    ensures '&' !in r && '=' !in r && '+' !in PlusToSpace(r)
  {
    if IsUnreserved(c) then [c]
    else if c == ' ' then "+"
    else
      HexDigitValue(c as int / 16);
      HexDigitValue(c as int % 16);
      "%" + [UpperHex[c as int / 16], UpperHex[c as int % 16]]
  }

  /** A name or value encoded for a form body. */
  function EncodeComponent(s: string): (r: string)
    requires IsAscii(s)
    ensures '&' !in r && '=' !in r
  {
    if s == [] then ""
    else EncodeChar(s[0]) + EncodeComponent(s[1..])
  }

  predicate AllAscii(pairs: seq<Pair>) {
    forall i :: 0 <= i < |pairs| ==> IsAscii(pairs[i].0) && IsAscii(pairs[i].1)
  }

  function EncodePair(p: Pair): string
    requires IsAscii(p.0) && IsAscii(p.1)
  {
    EncodeComponent(p.0) + "=" + EncodeComponent(p.1)
  }

  function EncodePairs(pairs: seq<Pair>): (r: seq<string>)
    requires AllAscii(pairs)
    ensures |r| == |pairs|
    ensures forall i :: 0 <= i < |pairs| ==> r[i] == EncodePair(pairs[i])
  {
    if pairs == [] then [] else [EncodePair(pairs[0])] + EncodePairs(pairs[1..])
  }

  /** The form body that carries `pairs`, in order. */
  function Serialize(pairs: seq<Pair>): string
    requires AllAscii(pairs)
  {
    JoinOn(EncodePairs(pairs), "&")
  }

  lemma PlusToSpaceAppend(a: string, b: string)
    ensures PlusToSpace(a + b) == PlusToSpace(a) + PlusToSpace(b)
  {
  }

  /** Decoding one encoded character gives the character back, whatever follows it. */
  lemma DecodeEncodedChar(c: char, t: string)
    requires c as int < 128
    ensures PercentDecode(PlusToSpace(EncodeChar(c)) + t) == [c] + PercentDecode(t)
  {
    if IsUnreserved(c) {
      var e := EncodeChar(c);
      assert PlusToSpace(e) == [c];
      assert (PlusToSpace(e) + t)[1..] == t;
    } else if c == ' ' {
      var e := EncodeChar(c);
      assert PlusToSpace(e) == [' '];
      assert (PlusToSpace(e) + t)[1..] == t;
    } else {
      DecodeEscapedChar(c, t);
    }
  }

  /** The case of DecodeEncodedChar for a character written as `%` and two hex digits. */
  lemma DecodeEscapedChar(c: char, t: string)
    requires c as int < 128 && !IsUnreserved(c) && c != ' '
    ensures PercentDecode(PlusToSpace(EncodeChar(c)) + t) == [c] + PercentDecode(t)
  {
    var hi, lo := c as int / 16, c as int % 16;
    var e := EncodeChar(c);
    assert e == "%" + [UpperHex[hi], UpperHex[lo]];
    assert PlusToSpace(e) == e;
    EscapeDigits(c, e + t);
    assert (e + t)[3..] == t;
  }

  /** The two digits after the `%` of an escaped character are read back as its code. */
  lemma EscapeDigits(c: char, s: string)
    requires c as int < 128 && |s| >= 3
    requires s[0] == '%' && s[1] == UpperHex[c as int / 16] && s[2] == UpperHex[c as int % 16]
    ensures IsHexDigit(s[1]) && IsHexDigit(s[2])
    ensures (16 * HexValue(s[1]) + HexValue(s[2])) as char == c
  {
    HexDigitValue(c as int / 16);
    HexDigitValue(c as int % 16);
  }


  /** Decoding an encoded component gives the component back. */
  lemma {:induction false} DecodeEncodedComponent(s: string)
    requires IsAscii(s)
    ensures DecodeComponent(EncodeComponent(s)) == s
  {
    if s != [] {
      var e := EncodeChar(s[0]);
      var rest := EncodeComponent(s[1..]);
      PlusToSpaceAppend(e, rest);
      DecodeEncodedChar(s[0], PlusToSpace(rest));
      DecodeEncodedComponent(s[1..]);
      assert s == [s[0]] + s[1..];
    }
  }

  /** An encoded pair decodes to the pair. */
  lemma DecodeEncodedPair(p: Pair)
    requires IsAscii(p.0) && IsAscii(p.1)
    ensures EncodePair(p) != "" && DecodeSequence(EncodePair(p)) == p
  {
    var k, v := EncodeComponent(p.0), EncodeComponent(p.1);
    IndexOfCharAfter(k, '=', v);
    var s := EncodePair(p);
    assert s[..|k|] == k && s[|k| + 1..] == v;
    DecodeEncodedComponent(p.0);
    DecodeEncodedComponent(p.1);
  }

  lemma {:induction false} DecodeEncodedSequences(pairs: seq<Pair>)
    requires AllAscii(pairs)
    ensures DecodeSequences(EncodePairs(pairs)) == pairs
  {
    if pairs != [] {
      DecodeEncodedSequences(pairs[1..]);
      DecodeEncodedSequencesStep(pairs);
    }
  }

  /** The step of DecodeEncodedSequences: the first encoded pair decodes in front of the rest. */
  lemma DecodeEncodedSequencesStep(pairs: seq<Pair>)
    requires AllAscii(pairs) && pairs != []
    requires DecodeSequences(EncodePairs(pairs[1..])) == pairs[1..]
    ensures DecodeSequences(EncodePairs(pairs)) == pairs
  {
    AllAsciiTail(pairs);
    var first := EncodePair(pairs[0]);
    DecodeEncodedPair(pairs[0]);
    assert EncodePairs(pairs) == [first] + EncodePairs(pairs[1..]);
    DecodeSequencesCons(first, EncodePairs(pairs[1..]));
    HeadTail(pairs);
  }

  /** The pairs after the first of an all-ASCII list are all ASCII too. */
  lemma AllAsciiTail(pairs: seq<Pair>)
    requires AllAscii(pairs) && pairs != []
    ensures IsAscii(pairs[0].0) && IsAscii(pairs[0].1) && AllAscii(pairs[1..])
  {
    forall i | 0 <= i < |pairs| - 1
      ensures IsAscii(pairs[1..][i].0) && IsAscii(pairs[1..][i].1)
    {
      assert pairs[1..][i] == pairs[i + 1];
    }
  }

  /** A non-empty sequence in front of others decodes in front of their pairs. */
  lemma DecodeSequencesCons(x: string, rest: seq<string>)
    requires x != ""
    ensures DecodeSequences([x] + rest) == [DecodeSequence(x)] + DecodeSequences(rest)
  {
    assert ([x] + rest)[0] == x && ([x] + rest)[1..] == rest;
  }

  /** Parsing a serialized form body gives back exactly the pairs, in order. */
  lemma ParseSerialize(pairs: seq<Pair>)
    requires AllAscii(pairs)
    ensures Parse(Serialize(pairs)) == pairs
  {
    var parts := EncodePairs(pairs);
    if pairs == [] {
      assert SplitOn("", "&") == [""];
    } else {
      forall i | 0 <= i < |parts| ensures Free(parts[i], "&") && NoEarlyOccurrence(parts[i], "&") {
        CharAbsent(parts[i], '&');
      }
      SplitJoin(parts, "&");
      DecodeEncodedSequences(pairs);
    }
  }

  /** Decoding a serialized form body gives the mapping of its pairs. */
  lemma DecodeSerialize(pairs: seq<Pair>)
    requires AllAscii(pairs)
    ensures Decode(Serialize(pairs)) == ToMap(pairs)
  {
    ParseSerialize(pairs);
  }
}
