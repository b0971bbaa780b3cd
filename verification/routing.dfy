/**
 * The router object: a table of routes that grows as patterns are registered
 * (`router.route('/abc/{id}')`), controllers attached to routes
 * (`route.use(Controller)`), path lookup (`router.find`), request preparation
 * (`router.prepare`) and the synchronous outcome of `router.dispatch`.
 */
module Routing {
  import opened Wrappers
  import opened Fields
  import opened Headers
  import opened Paths
  import opened Patterns
  import FormUrlEncoded
  import opened Bodies

  /** What a handler is given: the path parameters by name, the query and body fields, and the headers. */
  datatype HandlerInput = HandlerInput(
    params: map<string, Option<string>>,
    query: map<string, string>,
    body: map<string, string>,
    headers: seq<Header>)

  /** What a handler reports: a response, or the error it raised. */
  datatype Reply = Reply(status: int, headers: map<string, string>, payload: string) | Threw(error: string)

  /** A set of handlers by HTTP method; the methods it lacks are not implemented. */
  datatype Controller = Controller(handlers: map<string, HandlerInput -> Reply>)

  /** The base `Controller`: it implements no method at all. */
  const BaseController: Controller := Controller(map[])

  /** The four values `dispatch` completes with: error, status, headers, payload. */
  datatype Outcome = Outcome(error: Option<string>, status: int, headers: map<string, string>, payload: Option<string>)

  const NotFound: int := 404
  const NotImplemented: int := 501
  const InternalError: int := 500

  /** One registered route: its pattern, compiled once, its position in the table, and its controller. */
  class Route {
    const pattern: string
    const segments: seq<Segment>
    const index: nat
    var controller: Controller

    constructor (pattern: string, segments: seq<Segment>, index: nat)
      ensures this.pattern == pattern && this.segments == segments && this.index == index
      ensures controller == BaseController
    {
      this.pattern := pattern;
      this.segments := segments;
      this.index := index;
      controller := BaseController;
    }

    /** `route.use(controller)`: the controller answers for this route from now on. */
    method Use(c: Controller)
      modifies this
      ensures controller == c
    {
      controller := c;
    }
  }

  /** The position of the first route, in registration order, whose pattern matches the components. */
  function FirstMatch(routes: seq<Route>, comps: seq<string>): (r: Option<nat>)
    ensures r.Some? ==> r.value < |routes| && Match(routes[r.value].segments, comps).Some?
    ensures r.Some? ==> forall j :: 0 <= j < r.value ==> Match(routes[j].segments, comps).None?
    ensures r.None? ==> forall j :: 0 <= j < |routes| ==> Match(routes[j].segments, comps).None?
  {
    if routes == [] then None
    else if Match(routes[0].segments, comps).Some? then Some(0)
    else
      var r := FirstMatch(routes[1..], comps);
      if r.None? then None else Some(r.value + 1)
  }

  /** The route at a position, if any. */
  function RouteAt(routes: seq<Route>, i: Option<nat>): Option<Route>
    requires i.Some? ==> i.value < |routes|
  {
    if i.None? then None else Some(routes[i.value])
  }

  /** A prepared request (`routeData`): everything `dispatch` needs. */
  datatype RouteMatch = RouteMatch(
    client: Option<string>,
    path: string,
    verb: string,
    headers: seq<Header>,
    query: map<string, string>,
    body: map<string, string>,
    route: Option<Route>,
    matches: seq<Option<string>>,
    params: map<string, Option<string>>)

  class Router {
    var routes: seq<Route>

    /** Every route sits at its own index and holds the compiled form of its pattern. */
    ghost predicate Valid()
      reads this
    {
      forall i :: 0 <= i < |routes| ==> routes[i].index == i && Compile(routes[i].pattern) == Success(routes[i].segments)
    }

    constructor ()
      ensures routes == [] && Valid()
    {
      routes := [];
    }

    /**
     * `router.route(pattern)`: compiles the pattern and appends a route with
     * the base controller; a pattern that repeats a parameter name is refused
     * and the table is left as it was.
     */
    method AddRoute(pattern: string) returns (r: Result<Route, RouteError>)
      requires Valid()
      modifies this
      ensures Valid()
      ensures r.Success? <==> Compile(pattern).Success?
      ensures r.Success? ==> fresh(r.value) && routes == old(routes) + [r.value] &&
                             r.value.pattern == pattern && r.value.controller == BaseController
      ensures r.Failure? ==> routes == old(routes) && r.error == Compile(pattern).error
    {
      var compiled := Compile(pattern);
      if compiled.Failure? {
        return Failure(compiled.error);
      }
      var route := new Route(pattern, compiled.value, |routes|);
      routes := routes + [route];
      return Success(route);
    }

    /** `router.find(raw)`: the first registered route that matches the normalised path. */
    method Find(raw: string) returns (r: Option<Route>)
      ensures r == RouteAt(routes, FirstMatch(routes, Components(ParsePath(raw))))
    {
      var comps := Components(ParsePath(raw));
      var i := 0;
      while i < |routes|
        invariant 0 <= i <= |routes|
        invariant forall j :: 0 <= j < i ==> Match(routes[j].segments, comps).None?
      {
        if Match(routes[i].segments, comps).Some? {
          return Some(routes[i]);
        }
        i := i + 1;
      }
      return None;
    }

    /**
     * `router.prepare(client, raw, verb, headers, body)`: the normalised path,
     * the decoded query and body, the route `find` picks, and the captures of
     * its pattern, by position and by parameter name.
     */
    method Prepare(client: Option<string>, raw: string, verb: string, headers: seq<Header>, body: Body)
      returns (m: RouteMatch)
      ensures m.client == client && m.verb == verb && m.headers == headers
      ensures m.path == ParsePath(raw)
      ensures m.query == ParseQueryParameters(Raw(QueryPart(raw)))
      ensures m.body == ParseBody(body, headers)
      ensures m.route == RouteAt(routes, FirstMatch(routes, Components(m.path)))
      ensures m.route.Some? ==> Match(m.route.value.segments, Components(m.path)) == Some(m.matches) &&
                                |m.matches| == |ParamNames(m.route.value.segments)| &&
                                m.params == Named(m.route.value.segments, m.matches)
      ensures m.route.None? ==> m.matches == [] && m.params == map[]
    {
      var path := ParsePath(raw);
      var route := Find(raw);
      var matches: seq<Option<string>> := [];
      var params: map<string, Option<string>> := map[];
      if route.Some? {
        var comps := Components(path);
        MatchCaptures(route.value.segments, comps);
        matches := Match(route.value.segments, comps).value;
        params := Named(route.value.segments, matches);
      }
      m := RouteMatch(client, path, verb, headers, ParseQueryParameters(Raw(QueryPart(raw))),
                      ParseBody(body, headers), route, matches, params);
    }
  }

  /**
   * The outcome `router.dispatch(m, callback)` completes with: no route gives
   * 404, a method the route's controller lacks gives 501, and otherwise the
   * handler's reply is forwarded, an error it raises landing in the error slot.
   */
  function Dispatch(m: RouteMatch): (o: Outcome)
    reads if m.route.Some? then {m.route.value} else {}
    ensures m.route.None? ==> o.status == NotFound && o.error.None? && o.payload.None?
    ensures m.route.Some? && m.verb !in m.route.value.controller.handlers ==>
              o.status == NotImplemented && o.error.None? && o.payload.None?
    ensures o.error.Some? ==> o.status == InternalError && o.payload.None?
    ensures o.payload.Some? ==> m.route.Some? && m.verb in m.route.value.controller.handlers
  {
    if m.route.None? then Outcome(None, NotFound, map[], None)
    else
      var handlers := m.route.value.controller.handlers;
      if m.verb !in handlers then Outcome(None, NotImplemented, map[], None)
      else
        match handlers[m.verb](HandlerInput(m.params, m.query, m.body, m.headers))
        case Reply(status, hs, payload) => Outcome(None, status, hs, Some(payload))
        case Threw(e) => Outcome(Some(e), InternalError, map[], None)
  }

  /** The error slot is filled exactly when a handler ran and raised an error. */
  lemma DispatchError(m: RouteMatch)
    ensures var o := Dispatch(m);
            o.error.Some? <==>
              m.route.Some? && m.verb in m.route.value.controller.handlers &&
              m.route.value.controller.handlers[m.verb](HandlerInput(m.params, m.query, m.body, m.headers)).Threw?
  {
  }

  /** A route with only the base controller answers every method with 501 and no error. */
  lemma BaseControllerNotImplemented(m: RouteMatch)
    requires m.route.Some? && m.route.value.controller == BaseController
    ensures Dispatch(m).error.None? && Dispatch(m).status == NotImplemented
  {
  }

  /** The client address never changes the outcome. */
  lemma DispatchIgnoresClient(m: RouteMatch, client: Option<string>)
    ensures Dispatch(m.(client := client)) == Dispatch(m)
  {
  }
}
