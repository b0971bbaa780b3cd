/**
 * Request-path normalisation (`Router.parsePath`): the query component, from the
 * first `?` on (section 3.4 of RFC 3986), is dropped, and so is one trailing `/`
 * unless what remains is the root `/`.
 */
module Paths {
  import opened Wrappers
  import opened Text

  /** The path component: everything before the first `?`. */
  function PathPart(raw: string): (p: string)
    ensures '?' !in p
    ensures |p| <= |raw| && p == raw[..|p|]
    ensures |p| < |raw| ==> raw[|p|] == '?'
  {
    match IndexOf(raw, "?")
    case Some(i) =>
      assert forall j :: 0 <= j < i ==> !StartsWith(raw[j..], "?") && raw[j..][0] == raw[j];
      assert raw[i..][0] == '?';
      raw[..i]
    case None =>
      assert forall j :: 0 <= j < |raw| ==> !StartsWith(raw[j..], "?") && raw[j..][0] == raw[j];
      raw
  }

  /** The query component: everything after the first `?`, or nothing when there is none. */
  function QueryPart(raw: string): (q: string)
    ensures '?' in raw ==> raw == PathPart(raw) + "?" + q
    ensures '?' !in raw ==> q == ""
  {
    var p := PathPart(raw);
    if |p| < |raw| then
      assert raw == p + "?" + raw[|p| + 1..];
      raw[|p| + 1..]
    else ""
  }

  /** The normalised path of a request target. */
  function ParsePath(raw: string): (p: string)
    ensures '?' !in p
    ensures p == PathPart(raw) || (p != "" && p + "/" == PathPart(raw))
  {
    var path := PathPart(raw);
    if |path| > 1 && path[|path| - 1] == '/' then
      assert path == path[..|path| - 1] + "/";
      path[..|path| - 1]
    else path
  }

  /** A path `ParsePath` leaves alone: no query, and no trailing `/` except the root itself. */
  predicate IsNormal(p: string) {
    '?' !in p && (|p| <= 1 || p[|p| - 1] != '/')
  }

  /** `ParsePath` is the identity exactly on normal paths. */
  lemma ParsePathFixedPoints(p: string)
    ensures ParsePath(p) == p <==> IsNormal(p)
  {
    if IsNormal(p) {
      assert PathPart(p) == p;
    } else if '?' in p {
      assert '?' !in ParsePath(p);
    } else {
      assert PathPart(p) == p;
      assert |ParsePath(p)| == |p| - 1;
    }
  }

  /** The result is normal exactly when the path component does not end in `//`. */
  lemma ParsePathNormal(raw: string)
    ensures IsNormal(ParsePath(raw)) <==> !(|PathPart(raw)| > 2 && PathPart(raw)[|PathPart(raw)| - 2..] == "//")
  {
    var path := PathPart(raw);
    var p := ParsePath(raw);
    if |path| > 1 && path[|path| - 1] == '/' {
      assert p == path[..|path| - 1];
      if |path| > 2 {
        assert path[|path| - 2..] == "//" <==> p[|p| - 1] == '/';
      }
    }
  }

  /** `ParsePath` strips one slash only: it is not idempotent on a path ending in `//`. */
  lemma ParsePathStripsOneSlash()
    ensures ParsePath("/abc//") == "/abc/"
    ensures ParsePath(ParsePath("/abc//")) == "/abc"
  {
    PathPartNoQuery("/abc//");
    assert "/abc//"[..5] == "/abc/";
    PathPartNoQuery("/abc/");
    assert "/abc/"[..4] == "/abc";
  }

  /** A path without a query is its own path component. */
  lemma PathPartNoQuery(p: string)
    requires '?' !in p
    ensures PathPart(p) == p
  {
  }

  /** A query suffix never changes the normalised path. */
  lemma ParsePathIgnoresQuery(p: string, q: string)
    requires '?' !in p
    ensures PathPart(p + "?" + q) == p
    ensures QueryPart(p + "?" + q) == q
    ensures ParsePath(p + "?" + q) == ParsePath(p)
  {
    IndexOfCharAfter(p, '?', q);
    assert (p + "?" + q)[..|p|] == p;
    assert PathPart(p) == p;
  }

  /** One trailing slash, with or without a query after it, never changes a normal non-empty path. */
  lemma ParsePathIgnoresTrailingSlash(p: string, q: string)
    requires IsNormal(p) && p != ""
    ensures ParsePath(p + "/") == p
    ensures ParsePath(p + "/?" + q) == p
  {
    ParsePathSlash(p);
    SlashQuery(p, q);
    ParsePathIgnoresQuery(p + "/", q);
  }

  lemma SlashQuery(p: string, q: string)
    ensures p + "/?" + q == (p + "/") + "?" + q
  {
  }

  /** The case of ParsePathIgnoresTrailingSlash without a query. */
  lemma ParsePathSlash(p: string)
    requires IsNormal(p) && p != ""
    ensures '?' !in p + "/" && ParsePath(p + "/") == p
  {
    assert '?' !in p + "/";
    PathPartNoQuery(p + "/");
    assert (p + "/")[..|p|] == p;
  }
}
