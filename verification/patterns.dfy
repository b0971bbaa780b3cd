/**
 * Route patterns such as `/abc/{id}`: compiling a pattern into literal and
 * parameter segments, and matching a normalised request path against it
 * segment by segment. Parameters at the end of a pattern are optional, so
 * `/abc/{id}` accepts `/abc` as well as `/abc/123`.
 */
module Patterns {
  import opened Wrappers
  import opened Text
  import opened Fields

  /** One `/`-separated piece of a pattern. */
  datatype Segment = Literal(text: string) | Param(name: string)

  /** Why a pattern cannot be registered. */
  datatype RouteError = DuplicateParameter(name: string)

  /** The `/`-separated components of a pattern or a path; `/abc` has the components `""` and `"abc"`. */
  function Components(path: string): (parts: seq<string>)
    ensures |parts| >= 1
  {
    SplitOn(path, "/")
  }

  /** A component `{name}` is a parameter; every other component is literal text. */
  function ClassifyComponent(c: string): Segment {
    if |c| >= 2 && c[0] == '{' && c[|c| - 1] == '}' then Param(c[1..|c| - 1]) else Literal(c)
  }

  /** The pattern text a segment stands for. */
  function RenderSegment(s: Segment): string {
    match s
    case Literal(t) => t
    case Param(n) => "{" + n + "}"
  }

  /** Classifying a component and writing it back gives the component. */
  lemma RenderClassify(c: string)
    ensures RenderSegment(ClassifyComponent(c)) == c
  {
    if |c| >= 2 && c[0] == '{' && c[|c| - 1] == '}' {
      assert c == "{" + c[1..|c| - 1] + "}";
    }
  }

  function Classify(comps: seq<string>): (segs: seq<Segment>)
    ensures |segs| == |comps|
    ensures forall i :: 0 <= i < |comps| ==> segs[i] == ClassifyComponent(comps[i])
  {
    seq(|comps|, i requires 0 <= i < |comps| => ClassifyComponent(comps[i]))
  }

  /** The pattern text of a segment list. */
  function Render(segs: seq<Segment>): string {
    JoinOn(seq(|segs|, i requires 0 <= i < |segs| => RenderSegment(segs[i])), "/")
  }

  /** The parameter names of a pattern, in order. */
  function ParamNames(segs: seq<Segment>): seq<string> {
    if segs == [] then []
    else (if segs[0].Param? then [segs[0].name] else []) + ParamNames(segs[1..])
  }

  lemma {:induction false} ParamNamesAppend(a: seq<Segment>, b: seq<Segment>)
    ensures ParamNames(a + b) == ParamNames(a) + ParamNames(b)
  {
    if a != [] {
      assert (a + b)[1..] == a[1..] + b;
      ParamNamesAppend(a[1..], b);
    } else {
      assert a + b == b;
    }
  }

  /** How many parameters precede position `i` of the pattern: the position of its capture. */
  function Rank(segs: seq<Segment>, i: nat): nat
    requires i <= |segs|
  {
    |ParamNames(segs[..i])|
  }

  /** The parameter at position `i` is the `Rank(segs, i)`-th parameter name. */
  lemma ParamNameAtRank(segs: seq<Segment>, i: nat)
    requires i < |segs| && segs[i].Param?
    ensures Rank(segs, i) < |ParamNames(segs)|
    ensures ParamNames(segs)[Rank(segs, i)] == segs[i].name
  {
    assert segs == segs[..i] + [segs[i]] + segs[i + 1..];
    ParamNamesAppend(segs[..i] + [segs[i]], segs[i + 1..]);
    ParamNamesAppend(segs[..i], [segs[i]]);
    assert ParamNames([segs[i]]) == [segs[i].name] + ParamNames([]);
  }

  predicate Distinct(names: seq<string>) {
    forall i, j :: 0 <= i < j < |names| ==> names[i] != names[j]
  }

  /** A name that occurs twice in `names`, if there is one. */
  function Duplicate(names: seq<string>): (r: Option<string>)
    ensures r.None? <==> Distinct(names)
    ensures r.Some? ==> exists i, j :: 0 <= i < j < |names| && names[i] == r.value && names[j] == r.value
  {
    if names == [] then None
    else if names[0] in names[1..] then
      var j :| 0 <= j < |names[1..]| && names[1..][j] == names[0];
      assert names[j + 1] == names[0];
      Some(names[0])
    else
      var r := Duplicate(names[1..]);
      assert forall j :: 1 <= j < |names| ==> names[j] == names[1..][j - 1];
      r
  }

  /** Compiles a pattern (`router.route(pattern)`); a parameter name used twice is refused. */
  function Compile(pattern: string): (r: Result<seq<Segment>, RouteError>)
    ensures r.Success? <==> Distinct(ParamNames(Classify(Components(pattern))))
    ensures r.Success? ==> r.value == Classify(Components(pattern))
    ensures r.Failure? ==> exists i, j :: 0 <= i < j < |ParamNames(Classify(Components(pattern)))| &&
                                         ParamNames(Classify(Components(pattern)))[i] == r.error.name &&
                                         ParamNames(Classify(Components(pattern)))[j] == r.error.name
  {
    var segs := Classify(Components(pattern));
    match Duplicate(ParamNames(segs))
    case Some(n) => Failure(DuplicateParameter(n))
    case None => Success(segs)
  }

  /** Writing a compiled pattern back gives the pattern: compiling loses nothing. */
  lemma RenderCompile(pattern: string)
    requires Compile(pattern).Success?
    ensures Render(Compile(pattern).value) == pattern
  {
    var comps := Components(pattern);
    var segs := Compile(pattern).value;
    var rendered := seq(|segs|, i requires 0 <= i < |segs| => RenderSegment(segs[i]));
    forall i | 0 <= i < |comps| ensures rendered[i] == comps[i] {
      RenderClassify(comps[i]);
    }
    assert rendered == comps;
    JoinSplit(pattern, "/");
  }

  /** Whether one pattern segment accepts one path component. */
  predicate Accepts(seg: Segment, c: string) {
    match seg
    case Literal(t) => c == t
    case Param(_) => c != ""
  }

  /**
   * The declarative reading of a match: the path has no more components than
   * the pattern, each component is accepted by its segment, and every pattern
   * segment left over is a parameter (literal segments are never optional).
   */
  predicate Fits(pat: seq<Segment>, comps: seq<string>) {
    && |comps| <= |pat|
    && (forall i :: 0 <= i < |comps| ==> Accepts(pat[i], comps[i]))
    && (forall i :: |comps| <= i < |pat| ==> pat[i].Param?)
  }

  /**
   * Walks the pattern and the path components pairwise; on success returns one
   * capture per parameter, in pattern order, `None` for an omitted trailing one.
   */
  function Match(pat: seq<Segment>, comps: seq<string>): (r: Option<seq<Option<string>>>)
    ensures r.Some? ==> |comps| <= |pat| && |r.value| == |ParamNames(pat)|
    decreases |pat|
  {
    if pat == [] then
      if comps == [] then Some([]) else None
    else if comps == [] then
      if pat[0].Param? then
        match Match(pat[1..], [])
        case Some(caps) => Some([None] + caps)
        case None => None
      else None
    else
      match pat[0]
      case Literal(t) =>
        if comps[0] == t then Match(pat[1..], comps[1..]) else None
      case Param(_) =>
        if comps[0] == "" then None
        else
          match Match(pat[1..], comps[1..])
          case Some(caps) => Some([Some(comps[0])] + caps)
          case None => None
  }

  lemma FitsTail(pat: seq<Segment>, comps: seq<string>)
    requires pat != []
    ensures comps == [] ==> (Fits(pat, comps) <==> pat[0].Param? && Fits(pat[1..], []))
    ensures comps != [] ==> (Fits(pat, comps) <==> Accepts(pat[0], comps[0]) && Fits(pat[1..], comps[1..]))
  {
    if comps == [] {
      if pat[0].Param? && Fits(pat[1..], []) {
        forall i | 0 <= i < |pat| ensures pat[i].Param? {
          if i > 0 { assert pat[i] == pat[1..][i - 1]; }
        }
      }
    } else {
      if Accepts(pat[0], comps[0]) && Fits(pat[1..], comps[1..]) {
        forall i | 0 <= i < |comps| ensures Accepts(pat[i], comps[i]) {
          if i > 0 { assert pat[i] == pat[1..][i - 1] && comps[i] == comps[1..][i - 1]; }
        }
        forall i | |comps| <= i < |pat| ensures pat[i].Param? {
          assert pat[i] == pat[1..][i - 1];
        }
      }
      if Fits(pat, comps) {
        forall i | 0 <= i < |comps[1..]| ensures Accepts(pat[1..][i], comps[1..][i]) {
          assert pat[1..][i] == pat[i + 1] && comps[1..][i] == comps[i + 1];
        }
        forall i | |comps[1..]| <= i < |pat[1..]| ensures pat[1..][i].Param? {
          assert pat[1..][i] == pat[i + 1];
        }
      }
    }
  }

  /** A path matches a pattern exactly when it fits it. */
  lemma {:induction false} MatchIffFits(pat: seq<Segment>, comps: seq<string>)
    ensures Match(pat, comps).Some? <==> Fits(pat, comps)
    decreases |pat|
  {
    if pat == [] {
    } else {
      FitsTail(pat, comps);
      if comps == [] {
        MatchIffFits(pat[1..], []);
      } else {
        MatchIffFits(pat[1..], comps[1..]);
      }
    }
  }

  /**
   * The captures of a match: one per parameter, and the capture of the parameter
   * at position `i` is the path component at `i`, or `None` when the path stops
   * before it.
   */
  lemma {:induction false} MatchCaptures(pat: seq<Segment>, comps: seq<string>)
    requires Match(pat, comps).Some?
    ensures |Match(pat, comps).value| == |ParamNames(pat)|
    ensures forall i :: 0 <= i < |pat| && pat[i].Param? ==>
              Rank(pat, i) < |ParamNames(pat)| &&
              Match(pat, comps).value[Rank(pat, i)] == (if i < |comps| then Some(comps[i]) else None)
    decreases |pat|
  {
    if pat == [] {
      return;
    }
    var caps := Match(pat, comps).value;
    var rest := pat[1..];
    var restComps := if comps == [] then [] else comps[1..];
    MatchCaptures(rest, restComps);
    var restCaps := Match(rest, restComps).value;
    var off := if pat[0].Param? then 1 else 0;
    assert caps[off..] == restCaps;
    forall i | 0 <= i < |pat| && pat[i].Param?
      ensures Rank(pat, i) < |ParamNames(pat)|
      ensures caps[Rank(pat, i)] == (if i < |comps| then Some(comps[i]) else None)
    {
      ParamNameAtRank(pat, i);
      if i > 0 {
        assert pat[..i] == [pat[0]] + rest[..i - 1];
        assert pat[..i][1..] == rest[..i - 1];
        assert Rank(pat, i) == off + Rank(rest, i - 1);
        assert rest[i - 1] == pat[i];
        if comps != [] && i < |comps| {
          assert restComps[i - 1] == comps[i];
        }
      }
    }
  }

  /** The parameter names paired with their captures. */
  function Bindings<V>(names: seq<string>, caps: seq<V>): (r: seq<(string, V)>)
    requires |names| == |caps|
    ensures |r| == |names|
    ensures forall k :: 0 <= k < |r| ==> r[k] == (names[k], caps[k])
  {
    seq(|names|, k requires 0 <= k < |names| => (names[k], caps[k]))
  }

  /** The captures of a match keyed by parameter name (`routeData.route.id`). */
  function Named(pat: seq<Segment>, caps: seq<Option<string>>): map<string, Option<string>>
    requires |caps| == |ParamNames(pat)|
  {
    ToMap(Bindings(ParamNames(pat), caps))
  }

  /**
   * For a compiled pattern, the capture named after a parameter is the path
   * component at that parameter's position, or `None` when the path stops before it.
   */
  lemma NamedCaptures(pattern: string, comps: seq<string>)
    requires Compile(pattern).Success? && Match(Compile(pattern).value, comps).Some?
    ensures var pat := Compile(pattern).value;
            var caps := Match(pat, comps).value;
            |caps| == |ParamNames(pat)| &&
            Named(pat, caps).Keys == (set i | 0 <= i < |ParamNames(pat)| :: ParamNames(pat)[i]) &&
            forall i :: 0 <= i < |pat| && pat[i].Param? ==>
              pat[i].name in Named(pat, caps) &&
              Named(pat, caps)[pat[i].name] == (if i < |comps| then Some(comps[i]) else None)
  {
    var pat := Compile(pattern).value;
    var caps := Match(pat, comps).value;
    MatchCaptures(pat, comps);
    var names := ParamNames(pat);
    var b := Bindings(names, caps);
    forall i | 0 <= i < |pat| && pat[i].Param?
      ensures pat[i].name in Named(pat, caps)
      ensures Named(pat, caps)[pat[i].name] == (if i < |comps| then Some(comps[i]) else None)
    {
      ParamNameAtRank(pat, i);
      var k := Rank(pat, i);
      assert b[k] == (pat[i].name, caps[k]);
      assert IsLastWithName(b, k);
    }
  }

  /**
   * A trailing parameter is optional: a path that matches a pattern ending in
   * a parameter still matches without its last component, with the same
   * captures except that the last parameter captures nothing.
   */
  lemma {:induction false} TrailingParamOptional(pat: seq<Segment>, comps: seq<string>)
    requires |comps| == |pat| > 0 && pat[|pat| - 1].Param?
    requires Match(pat, comps).Some?
    ensures var full := Match(pat, comps).value;
            |full| > 0 && Match(pat, comps[..|comps| - 1]) == Some(full[..|full| - 1] + [None])
    decreases |pat|
  {
    var shorter := comps[..|comps| - 1];
    if |pat| == 1 {
      assert shorter == [] && pat[1..] == [];
      assert Match(pat, comps) == Some([Some(comps[0])] + []);
      assert Match(pat, shorter) == Some([None] + []);
      assert ([Some(comps[0])] + [])[..0] + [None] == [None] + [];
    } else {
      var rest := pat[1..];
      assert shorter[1..] == comps[1..][..|comps| - 2];
      assert rest[|rest| - 1] == pat[|pat| - 1];
      TrailingParamOptional(rest, comps[1..]);
      if pat[0].Param? {
        var rc := Match(rest, comps[1..]).value;
        var full := [Some(comps[0])] + rc;
        assert Match(pat, comps) == Some(full);
        assert full[..|full| - 1] == [Some(comps[0])] + rc[..|rc| - 1];
        assert Match(pat, shorter) == Some([Some(comps[0])] + (rc[..|rc| - 1] + [None]));
        assert full[..|full| - 1] + [None] == [Some(comps[0])] + (rc[..|rc| - 1] + [None]);
      } else {
        assert Match(pat, comps) == Match(rest, comps[1..]);
        assert Match(pat, shorter) == Match(rest, shorter[1..]);
      }
    }
  }
}
