/**
 * String helpers used by every decoder of the router: prefix tests, the first
 * occurrence of a substring, splitting on a delimiter (the left-to-right,
 * non-overlapping split of JavaScript's `String.prototype.split`) and its
 * inverse, whitespace trimming and ASCII lower-casing.
 */
module Text {
  import opened Wrappers

  /** `s` begins with `p`. */
  predicate StartsWith(s: string, p: string) {
    |p| <= |s| && s[..|p|] == p
  }

  /** No occurrence of `d` in `s`, at any position. */
  predicate Free(s: string, d: string) {
    forall i :: 0 <= i <= |s| ==> !StartsWith(s[i..], d)
  }

  /**
   * No occurrence of `d` starts inside `x` when `x` is immediately followed by `d`:
   * a left-to-right scan of `x + d` meets `d` first at position `|x|`.
   */
  predicate NoEarlyOccurrence(x: string, d: string) {
    forall i :: 0 <= i < |x| ==> !StartsWith((x + d)[i..], d)
  }

  /** The position of the first occurrence of `t` in `s`. */
  function IndexOf(s: string, t: string): (r: Option<nat>)
    ensures r.Some? ==> r.value + |t| <= |s| && StartsWith(s[r.value..], t)
    ensures r.Some? ==> forall j :: 0 <= j < r.value ==> !StartsWith(s[j..], t)
    ensures r.None? ==> Free(s, t)
    decreases |s|
  {
    if StartsWith(s, t) then Some(0)
    else if s == [] then None
    else
      assert forall j :: 1 <= j <= |s| ==> s[j..] == s[1..][j - 1..];
      match IndexOf(s[1..], t)
      case Some(i) => Some(i + 1)
      case None => None
  }

  /** A first occurrence determines `IndexOf`. */
  lemma IndexOfIs(s: string, t: string, i: nat)
    requires i <= |s| && StartsWith(s[i..], t)
    requires forall j :: 0 <= j < i ==> !StartsWith(s[j..], t)
    ensures IndexOf(s, t) == Some(i)
  {
  }

  /** A one-character needle occurs exactly where that character does. */
  lemma StartsWithChar(s: string, c: char)
    ensures StartsWith(s, [c]) <==> |s| > 0 && s[0] == c
  {
  }

  /** A character absent from `x` has neither an occurrence in `x` nor an early one in `x + [c]`. */
  lemma CharAbsent(x: string, c: char)
    requires c !in x
    ensures Free(x, [c]) && NoEarlyOccurrence(x, [c])
  {
    forall i | 0 <= i <= |x| ensures !StartsWith(x[i..], [c]) {
      StartsWithChar(x[i..], c);
      if i < |x| { assert x[i..][0] == x[i]; }
    }
    forall i | 0 <= i < |x| ensures !StartsWith((x + [c])[i..], [c]) {
      StartsWithChar((x + [c])[i..], c);
      assert (x + [c])[i..][0] == x[i];
    }
  }

  /** The index of the first `c` in `x + [c] + y` when `c` does not occur in `x`. */
  lemma IndexOfCharAfter(x: string, c: char, y: string)
    requires c !in x
    ensures IndexOf(x + [c] + y, [c]) == Some(|x|)
  {
    var s := x + [c] + y;
    StartsWithChar(s[|x|..], c);
    forall j | 0 <= j < |x| ensures !StartsWith(s[j..], [c]) {
      StartsWithChar(s[j..], c);
      assert s[j..][0] == x[j];
    }
    IndexOfIs(s, [c], |x|);
  }

  /** A string in which the first character of `d` never occurs holds no occurrence of `d`. */
  lemma FreeOfHeadChar(s: string, d: string)
    requires |d| > 0 && d[0] !in s
    ensures Free(s, d)
  {
    forall i | 0 <= i <= |s| ensures !StartsWith(s[i..], d) {
      if i < |s| {
        assert s[i..][0] == s[i];
      }
    }
  }

  /** `s` split into the pieces between the occurrences of `d`, scanning left to right. */
  function SplitOn(s: string, d: string): (parts: seq<string>)
    requires |d| > 0
    ensures |parts| >= 1
    decreases |s|
  {
    if StartsWith(s, d) then [""] + SplitOn(s[|d|..], d)
    else if s == [] then [""]
    else
      var rest := SplitOn(s[1..], d);
      [[s[0]] + rest[0]] + rest[1..]
  }

  /** The pieces `parts` glued back together with `d` between them. */
  function JoinOn(parts: seq<string>, d: string): string
  {
    if |parts| == 0 then ""
    else if |parts| == 1 then parts[0]
    else parts[0] + d + JoinOn(parts[1..], d)
  }

  /** Joining the pieces of a split gives back the string: splitting loses nothing. */
  lemma {:induction false} JoinSplit(s: string, d: string)
    requires |d| > 0
    ensures JoinOn(SplitOn(s, d), d) == s
    decreases |s|
  {
    if StartsWith(s, d) {
      JoinSplit(s[|d|..], d);
      JoinSplitDelimiter(s, d);
    } else if s != [] {
      JoinSplit(s[1..], d);
      JoinSplitChar(s, d);
    }
  }

  /** The step of JoinSplit for a string that starts with the delimiter. */
  lemma JoinSplitDelimiter(s: string, d: string)
    requires |d| > 0 && StartsWith(s, d)
    requires JoinOn(SplitOn(s[|d|..], d), d) == s[|d|..]
    ensures JoinOn(SplitOn(s, d), d) == s
  {
    var rest := SplitOn(s[|d|..], d);
    assert SplitOn(s, d) == [""] + rest;
    JoinCons("", rest, d);
    assert s == d + s[|d|..];
  }

  /** The step of JoinSplit for a string that starts with an ordinary character. */
  lemma JoinSplitChar(s: string, d: string)
    requires |d| > 0 && !StartsWith(s, d) && s != []
    requires JoinOn(SplitOn(s[1..], d), d) == s[1..]
    ensures JoinOn(SplitOn(s, d), d) == s
  {
    var rest := SplitOn(s[1..], d);
    assert SplitOn(s, d) == [[s[0]] + rest[0]] + rest[1..];
    JoinPrepend(s[0], rest, d);
    assert s == [s[0]] + s[1..];
  }

  lemma JoinCons(a: string, rest: seq<string>, d: string)
    requires |rest| >= 1
    ensures JoinOn([a] + rest, d) == a + d + JoinOn(rest, d)
  {
    assert ([a] + rest)[1..] == rest;
  }

  /** A character put in front of the first piece ends up in front of the join. */
  lemma JoinPrepend(c: char, parts: seq<string>, d: string)
    requires |parts| >= 1
    ensures JoinOn([[c] + parts[0]] + parts[1..], d) == [c] + JoinOn(parts, d)
  {
    var q := [[c] + parts[0]] + parts[1..];
    if |parts| > 1 {
      assert q[1..] == parts[1..];
    }
  }

  /** A string without any occurrence of `d` is a single piece. */
  lemma {:induction false} SplitFree(x: string, d: string)
    requires |d| > 0 && Free(x, d)
    ensures SplitOn(x, d) == [x]
    decreases |x|
  {
    assert !StartsWith(x[0..], d);
    assert x[0..] == x;
    if x != [] {
      forall i | 0 <= i <= |x[1..]| ensures !StartsWith(x[1..][i..], d) {
        assert x[1..][i..] == x[i + 1..];
      }
      SplitFree(x[1..], d);
      assert [x[0]] + x[1..] == x;
    }
  }

  /** Splitting `x + d + y` cuts at the `d` right after `x` when no occurrence starts earlier. */
  lemma {:induction false} SplitSplice(x: string, d: string, y: string)
    requires |d| > 0 && NoEarlyOccurrence(x, d)
    ensures SplitOn(x + d + y, d) == [x] + SplitOn(y, d)
    decreases |x|
  {
    var s := x + d + y;
    if x == [] {
      assert s == d + y;
      assert StartsWith(s, d);
      assert s[|d|..] == y;
    } else {
      assert (x + d)[0..] == x + d;
      assert s[..|d|] == (x + d)[..|d|];
      assert !StartsWith(s, d);
      forall i | 0 <= i < |x[1..]| ensures !StartsWith((x[1..] + d)[i..], d) {
        assert (x[1..] + d)[i..] == (x + d)[i + 1..];
      }
      SplitSplice(x[1..], d, y);
      assert s[1..] == x[1..] + d + y;
      assert [x[0]] + x[1..] == x;
    }
  }

  /** Splitting a join gives back the pieces, when no piece hides a delimiter. */
  lemma {:induction false} SplitJoin(parts: seq<string>, d: string)
    requires |d| > 0 && |parts| >= 1
    requires forall i :: 0 <= i < |parts| - 1 ==> NoEarlyOccurrence(parts[i], d)
    requires Free(parts[|parts| - 1], d)
    ensures SplitOn(JoinOn(parts, d), d) == parts
    decreases |parts|
  {
    if |parts| == 1 {
      SplitFree(parts[0], d);
    } else {
      SplitJoin(parts[1..], d);
      SplitSplice(parts[0], d, JoinOn(parts[1..], d));
      SplitJoinStep(parts, d);
    }
  }

  /** The step of SplitJoin: the first piece is split off in front of the rest. */
  lemma SplitJoinStep(parts: seq<string>, d: string)
    requires |d| > 0 && |parts| >= 2
    requires SplitOn(parts[0] + d + JoinOn(parts[1..], d), d) == [parts[0]] + SplitOn(JoinOn(parts[1..], d), d)
    requires SplitOn(JoinOn(parts[1..], d), d) == parts[1..]
    ensures SplitOn(JoinOn(parts, d), d) == parts
  {
    assert JoinOn(parts, d) == parts[0] + d + JoinOn(parts[1..], d);
    HeadTail(parts);
  }

  /** A non-empty sequence is its first element in front of the rest. */
  lemma HeadTail<T>(s: seq<T>)
    requires |s| >= 1
    ensures [s[0]] + s[1..] == s
  {
  }

  /** The characters JavaScript's `String.prototype.trim` removes (white space and line terminators). */
  predicate IsSpace(c: char) {
    var n := c as int;
    n == 0x09 || n == 0x0A || n == 0x0B || n == 0x0C || n == 0x0D || n == 0x20 ||
    n == 0xA0 || n == 0x1680 || (0x2000 <= n <= 0x200A) || n == 0x2028 || n == 0x2029 ||
    n == 0x202F || n == 0x205F || n == 0x3000 || n == 0xFEFF
  }

  predicate AllSpace(s: string) {
    forall i :: 0 <= i < |s| ==> IsSpace(s[i])
  }

  /** `s` neither begins nor ends with white space. */
  predicate Trimmed(s: string) {
    s == [] || (!IsSpace(s[0]) && !IsSpace(s[|s| - 1]))
  }

  /** `s` without its leading white space. */
  function TrimStart(s: string): (r: string)
    ensures |r| <= |s|
  {
    if |s| > 0 && IsSpace(s[0]) then TrimStart(s[1..]) else s
  }

  /** `s` without its trailing white space. */
  function TrimEnd(s: string): (r: string)
    ensures |r| <= |s|
  {
    if |s| > 0 && IsSpace(s[|s| - 1]) then TrimEnd(s[..|s| - 1]) else s
  }

  /** `s` with the white space at both ends removed, as JavaScript's `trim`. */
  function Trim(s: string): (r: string)
    ensures |r| <= |s|
  {
    TrimEnd(TrimStart(s))
  }

  /** `TrimStart` removes a prefix of white space and stops at the first other character. */
  lemma {:induction false} TrimStartSpec(s: string)
    ensures var r := TrimStart(s);
            r == s[|s| - |r|..] && AllSpace(s[..|s| - |r|]) && (r == [] || !IsSpace(r[0]))
    decreases |s|
  {
    if |s| > 0 && IsSpace(s[0]) {
      var r := TrimStart(s[1..]);
      TrimStartSpec(s[1..]);
      assert s[1..][|s| - 1 - |r|..] == s[|s| - |r|..];
      assert s[..|s| - |r|] == [s[0]] + s[1..][..|s| - 1 - |r|];
    }
  }

  /** `TrimEnd` removes a suffix of white space and stops at the last other character. */
  lemma {:induction false} TrimEndSpec(s: string)
    ensures var r := TrimEnd(s);
            r == s[..|r|] && AllSpace(s[|r|..]) && (r == [] || !IsSpace(r[|r| - 1]))
    decreases |s|
  {
    if |s| > 0 && IsSpace(s[|s| - 1]) {
      var r := TrimEnd(s[..|s| - 1]);
      TrimEndSpec(s[..|s| - 1]);
      assert s[..|s| - 1][..|r|] == s[..|r|];
      assert s[|r|..] == s[..|s| - 1][|r|..] + [s[|s| - 1]];
    }
  }

  /**
   * Trimming removes white space at both ends and nothing else: the result is
   * trimmed, and it sits in `s` between two runs of white space.
   */
  lemma TrimSpec(s: string)
    ensures var r := Trim(s);
            Trimmed(r) &&
            exists i :: 0 <= i <= |s| - |r| && s[i..i + |r|] == r && AllSpace(s[..i]) && AllSpace(s[i + |r|..])
  {
    var a := TrimStart(s);
    var r := TrimEnd(a);
    TrimStartSpec(s);
    TrimEndSpec(a);
    var i := |s| - |a|;
    assert r != [] ==> r[0] == a[0];
    assert s[i..i + |r|] == a[..|r|];
    assert s[i + |r|..] == a[|r|..];
    assert AllSpace(s[..i]) && AllSpace(s[i + |r|..]);
  }

  /** Trimming leaves a string that is already trimmed unchanged. */
  lemma TrimTrimmed(s: string)
    requires Trimmed(s)
    ensures Trim(s) == s
  {
    assert TrimStart(s) == s;
  }

  /** One leading space is removed by trimming. */
  lemma TrimSpaceThen(z: string)
    requires Trimmed(z)
    ensures Trim(" " + z) == z
  {
    assert (" " + z)[1..] == z;
    TrimTrimmed(z);
  }

  /** Trailing white space is removed by trimming. */
  lemma TrimDropsTrailing(s: string, w: string)
    requires Trimmed(s) && AllSpace(w)
    ensures Trim(s + w) == s
  {
    var t := s + w;
    if s == [] {
      assert t == w;
      TrimStartAllSpace(w);
    } else {
      assert t[0] == s[0];
      assert TrimStart(t) == t;
      TrimEndDropsTrailing(s, w);
    }
  }

  lemma {:induction false} TrimStartAllSpace(w: string)
    requires AllSpace(w)
    ensures TrimStart(w) == []
    decreases |w|
  {
    if w != [] {
      TrimStartAllSpace(w[1..]);
    }
  }

  lemma {:induction false} TrimEndDropsTrailing(s: string, w: string)
    requires s != [] && !IsSpace(s[|s| - 1]) && AllSpace(w)
    ensures TrimEnd(s + w) == s
    decreases |w|
  {
    if w == [] {
      assert s + w == s;
    } else {
      var t := s + w;
      assert t[..|t| - 1] == s + w[..|w| - 1];
      TrimEndDropsTrailing(s, w[..|w| - 1]);
    }
  }

  /** Every character of `s` is ASCII. */
  predicate IsAscii(s: string) {
    forall i :: 0 <= i < |s| ==> s[i] as int < 128
  }

  /** ASCII lower-casing of one character. */
  function LowerChar(c: char): char {
    if 'A' <= c <= 'Z' then (c as int + 32) as char else c
  }

  /** `s` holds no ASCII upper-case letter. */
  predicate IsLower(s: string) {
    forall i :: 0 <= i < |s| ==> !('A' <= s[i] <= 'Z')
  }

  /** ASCII lower-casing, as used for header names and media types. */
  function Lower(s: string): (r: string)
    ensures |r| == |s| && IsLower(r)
    ensures forall i :: 0 <= i < |s| ==> r[i] == LowerChar(s[i])
  {
    seq(|s|, i requires 0 <= i < |s| => LowerChar(s[i]))
  }

  predicate IsHexDigit(c: char) {
    '0' <= c <= '9' || 'a' <= c <= 'f' || 'A' <= c <= 'F'
  }

  function HexValue(c: char): (v: nat)
    requires IsHexDigit(c)
    ensures v < 16
  {
    if '0' <= c <= '9' then c as int - '0' as int
    else if 'a' <= c <= 'f' then c as int - 'a' as int + 10
    else c as int - 'A' as int + 10
  }

  const UpperHex: string := "0123456789ABCDEF"

  /** The upper-case hexadecimal digits are read back as their values. */
  lemma HexDigitValue(n: nat)
    requires n < 16
    ensures IsHexDigit(UpperHex[n]) && HexValue(UpperHex[n]) == n
  {
  }

  /** Lower-casing leaves a string without upper-case letters unchanged. */
  lemma LowerOfLower(s: string)
    requires IsLower(s)
    ensures Lower(s) == s
  {
  }
}
