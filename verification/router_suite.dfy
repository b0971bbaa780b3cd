/**
 * The examples the router's own test suite checks, each stated as a lemma
 * about the model (or, where the router object is involved, as a method that
 * builds one and states what it observes).
 */
module RouterSuite {
  import opened Wrappers
  import opened Text
  import opened Fields
  import opened Headers
  import opened Paths
  import opened Patterns
  import FormUrlEncoded
  import JsonObject
  import Multipart
  import opened Bodies
  import opened Routing

  /** `parsePath` drops the query and the trailing slash. */
  lemma ParsePathExamples()
    ensures ParsePath("/abc/def/?q=2") == "/abc/def"
    ensures ParsePath("/abc/def/") == "/abc/def"
    ensures ParsePath("/abc/def") == "/abc/def"
  {
    assert IsNormal("/abc/def");
    ParsePathIgnoresTrailingSlash("/abc/def", "q=2");
    assert "/abc/def" + "/?" + "q=2" == "/abc/def/?q=2";
    ParsePathFixedPoints("/abc/def");
  }

  const AbcPattern: string := "/abc/{id}"
  const AbcSegments: seq<Segment> := [Literal(""), Literal("abc"), Param("id")]

  /** `/abc/{id}` has the components `""`, `abc` and `{id}`. */
  lemma ComponentsAbc()
    ensures Components(AbcPattern) == ["", "abc", "{id}"]
  {
    AbcPieces();
    CharAbsent("", '/');
    CharAbsent("abc", '/');
    CharAbsent("{id}", '/');
    SplitFree("{id}", "/");
    SplitSplice("abc", "/", "{id}");
    SplitSplice("", "/", "abc" + "/" + "{id}");
  }

  lemma AbcPieces()
    ensures AbcPattern == "" + "/" + ("abc" + "/" + "{id}")
    ensures '/' !in "abc" && '/' !in "{id}"
  {
  }

  lemma ClassifyAbc()
    ensures Classify(["", "abc", "{id}"]) == AbcSegments
    ensures ParamNames(AbcSegments) == ["id"]
  {
    assert "{id}"[1..3] == "id";
    assert ClassifyComponent("{id}") == Param("id");
  }

  /** `/abc/{id}` compiles to two literal segments and the parameter `id`. */
  lemma CompileAbc()
    ensures Compile(AbcPattern) == Success(AbcSegments)
  {
    ComponentsAbc();
    ClassifyAbc();
    assert Distinct(["id"]);
  }

  /** `/abc` and `/abc/` normalise to `/abc`. */
  lemma ParsePathAbc()
    ensures ParsePath("/abc") == "/abc"
    ensures ParsePath("/abc/") == "/abc"
  {
    assert IsNormal("/abc");
    ParsePathFixedPoints("/abc");
    ParsePathIgnoresTrailingSlash("/abc", "a=1");
  }

  /** `/abc?a=1` and `/abc/?a=1` normalise to `/abc`. */
  lemma ParsePathAbcQuery()
    ensures ParsePath("/abc?a=1") == "/abc"
    ensures ParsePath("/abc/?a=1") == "/abc"
  {
    AbcQueryText();
    ParsePathAbc();
    ParsePathIgnoresQuery("/abc", "a=1");
    ParsePathIgnoresQuery("/abc/", "a=1");
  }

  /** String-literal facts about the query spellings of `/abc`, kept apart so that the lookup proofs stay small for the solver. */
  lemma AbcQueryText()
    ensures "/abc" + "?" + "a=1" == "/abc?a=1"
    ensures "/abc/" + "?" + "a=1" == "/abc/?a=1"
  {
  }

  /** `/abc/<id>`, with or without a query, normalises to `/abc/<id>`. */
  lemma ParsePathAbcId(id: string)
    requires id != "" && '/' !in id && '?' !in id
    ensures ParsePath("/abc/" + id) == "/abc/" + id
  {
    var p := "/abc/" + id;
    assert p[|p| - 1] == id[|id| - 1];
    assert forall k :: 0 <= k < |p| ==> p[k] == '?' ==> k >= 5 && id[k - 5] == '?';
    assert IsNormal(p);
    ParsePathFixedPoints(p);
  }

  /** A query after `/abc/<id>` is dropped. */
  lemma ParsePathAbcIdQuery(id: string, q: string)
    requires id != "" && '/' !in id && '?' !in id
    ensures ParsePath("/abc/" + id + "?" + q) == "/abc/" + id
  {
    ParsePathAbcId(id);
    ParsePathIgnoresQuery("/abc/" + id, q);
  }

  /** `/abc` splits into `""` and `abc`; `/abc/<id>` adds the component `<id>`. */
  lemma ComponentsOfAbcPaths(id: string)
    requires '/' !in id
    ensures Components("/abc") == ["", "abc"]
    ensures Components("/abc/" + id) == ["", "abc", id]
  {
    CharAbsent("", '/');
    CharAbsent("abc", '/');
    CharAbsent(id, '/');
    SplitFree("abc", "/");
    SplitFree(id, "/");
    SplitSplice("abc", "/", id);
    assert "/abc" == "" + "/" + "abc";
    SplitSplice("", "/", "abc");
    assert "/abc/" + id == "" + "/" + ("abc" + "/" + id);
    SplitSplice("", "/", "abc" + "/" + id);
  }

  /** The trailing `{id}` matches nothing (no capture) or one non-empty component (capturing it). */
  lemma MatchIdParam(id: string)
    requires id != ""
    ensures Match([Param("id")], []) == Some([None])
    ensures Match([Param("id")], [id]) == Some([Some(id)])
  {
    var last := [Param("id")];
    assert last[1..] == [];
    assert Match(last[1..], []) == Some([]);
    var none := Match(last, []);
    assert |none.value| == 1 && none.value[0] == None;
    assert none.value == [None];
    var cap: seq<string> := [id];
    assert cap[0] == id && cap[1..] == [];
    var one := Match(last, cap);
    assert |one.value| == 1 && one.value[0] == Some(id);
    assert one.value == [Some(id)];
  }

  /** The segments after the leading literal match `abc` and `abc/<id>`. */
  lemma MatchAbcTail(id: string)
    requires id != ""
    ensures Match(AbcSegments[1..], ["abc"]) == Some([None])
    ensures Match(AbcSegments[1..], ["abc", id]) == Some([Some(id)])
  {
    var tail := AbcSegments[1..];
    assert tail == [Literal("abc"), Param("id")];
    assert tail[0] == Literal("abc") && tail[1..] == [Param("id")];
    var one: seq<string> := ["abc"];
    var two: seq<string> := ["abc", id];
    assert one[0] == "abc" && one[1..] == [];
    assert two[0] == "abc" && two[1..] == [id];
    MatchIdParam(id);
  }

  /** `/abc/{id}` matches `/abc` without a capture and `/abc/<id>` capturing `<id>`. */
  lemma MatchAbc(id: string)
    requires id != "" && '/' !in id
    ensures Match(AbcSegments, Components("/abc")) == Some([None])
    ensures Match(AbcSegments, Components("/abc/" + id)) == Some([Some(id)])
  {
    MatchAbcTail(id);
    var one: seq<string> := ["", "abc"];
    var two: seq<string> := ["", "abc", id];
    assert one[0] == "" && one[1..] == ["abc"];
    assert two[0] == "" && two[1..] == ["abc", id];
    assert AbcSegments[0] == Literal("");
    assert Match(AbcSegments, one) == Some([None]);
    assert Match(AbcSegments, two) == Some([Some(id)]);
    ComponentsOfAbcPaths(id);
  }

  /** After `/abc/{id}` is registered, `/abc`, `/abc/`, `/abc?a=1` and `/abc/?a=1` all reach it. */
  lemma FindAbcBare()
    ensures Match(AbcSegments, Components(ParsePath("/abc"))).Some?
    ensures Match(AbcSegments, Components(ParsePath("/abc/"))).Some?
    ensures Match(AbcSegments, Components(ParsePath("/abc?a=1"))).Some?
    ensures Match(AbcSegments, Components(ParsePath("/abc/?a=1"))).Some?
  {
    ParsePathAbc();
    ParsePathAbcQuery();
    MatchAbc("1");
  }

  /** `/abc/1` and `/abc/1?a=1` reach `/abc/{id}` too, capturing `1`. */
  lemma FindAbcOne()
    ensures Match(AbcSegments, Components(ParsePath("/abc/1"))) == Some([Some("1")])
    ensures Match(AbcSegments, Components(ParsePath("/abc/1?a=1"))) == Some([Some("1")])
  {
    FindAbcOneBare();
    FindAbcOneQuery();
  }

  /** String-literal facts about `/abc/1`, kept apart so that the lookup proofs stay small for the solver. */
  lemma AbcOneText()
    ensures "/abc/" + "1" == "/abc/1"
    ensures "/abc/" + "1" + "?" + "a=1" == "/abc/1?a=1"
  {
  }

  lemma FindAbcOneBare()
    ensures Match(AbcSegments, Components(ParsePath("/abc/1"))) == Some([Some("1")])
  {
    AbcOneText();
    ParsePathAbcId("1");
    MatchAbc("1");
  }

  lemma FindAbcOneQuery()
    ensures Match(AbcSegments, Components(ParsePath("/abc/1?a=1"))) == Some([Some("1")])
  {
    AbcOneText();
    ParsePathAbcIdQuery("1", "a=1");
    ParsePathAbcId("1");
    MatchAbc("1");
  }

  /** `/abc/123` normalises to itself and splits into `""`, `abc` and `123`, which `/abc/{id}` matches. */
  lemma PrepareAbc123()
    ensures ParsePath("/abc/123") == "/abc/123"
    ensures Match(AbcSegments, Components("/abc/123")) == Some([Some("123")])
  {
    AbcText123();
    ParsePathAbcId("123");
    MatchAbc("123");
  }

  /** String-literal fact about `/abc/123`, kept apart so that the prepare proof stays small for the solver. */
  lemma AbcText123()
    ensures "/abc/" + "123" == "/abc/123"
  {
  }

  /** A fresh router with `/abc/{id}` registered and handed the base controller. */
  method AbcRouter() returns (router: Router, route: Route)
    ensures fresh(router) && router.Valid() && router.routes == [route]
    ensures route.segments == AbcSegments && route.controller == BaseController
  {
    router := new Router();
    CompileAbc();
    var r := router.AddRoute(AbcPattern);
    route := r.value;
    assert router.routes[0] == route;
    assert route.segments == AbcSegments;
    route.Use(BaseController);
    assert router.Valid();
  }

  /** `router.find` returns the registered route for each of the six spellings of the path. */
  method FindExamples() returns (router: Router, route: Route, found: seq<Option<Route>>)
    ensures router.routes == [route] && route.segments == AbcSegments
    ensures found == [Some(route), Some(route), Some(route), Some(route), Some(route), Some(route)]
  {
    router, route := AbcRouter();
    FindAbcBare();
    FindAbcOne();
    var a := router.Find("/abc");
    var b := router.Find("/abc/");
    var c := router.Find("/abc/1");
    var d := router.Find("/abc?a=1");
    var e := router.Find("/abc/?a=1");
    var f := router.Find("/abc/1?a=1");
    found := [a, b, c, d, e, f];
  }

  /**
   * `router.prepare(client, "/abc/123", "GET", {}, "")` captures `123` by
   * position and as `id`, and dispatching it to the base controller completes
   * with no error and status 501, whether or not a client address is given.
   */
  method PrepareAndDispatch(client: Option<string>) returns (m: RouteMatch, o: Outcome)
    ensures m.client == client && m.path == "/abc/123" && m.verb == "GET"
    ensures m.matches == [Some("123")]
    ensures "id" in m.params && m.params["id"] == Some("123")
    ensures m.route.Some? && m.route.value.segments == AbcSegments && o == Dispatch(m)
    ensures o.error.None? && o.status == 501
  {
    var router, route := AbcRouter();
    PrepareAbc123();
    CompileAbc();
    NamedCaptures(AbcPattern, Components("/abc/123"));
    assert AbcSegments[2] == Param("id");
    m := router.Prepare(client, "/abc/123", "GET", [], Text(""));
    BaseControllerNotImplemented(m);
    o := Dispatch(m);
  }
}
