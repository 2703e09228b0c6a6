/**
 * The router: routes stored by HTTP method and by name, the group prefix
 * and middleware stacks used while registering, and the matching of a
 * request against the routes of its method, in registration order.
 */
module Routers {
  import opened Wrappers
  import opened Php
  import opened Pcre
  import opened Templates
  import opened Callbacks
  import opened Uris
  import opened Dispatch
  import opened Namespaces
  import opened Registration
  import opened Routes

  /** What `match` gives back: the route, the response of its run, or nothing. */
  datatype Outcome = Found(route: Route) | Answered(response: Response) | Nothing

  /** `$this->routes[$method]`; a method without routes has none to loop over. */
  function Bucket(routes: map<string, seq<Route>>, verb: string): seq<Route> {
    if verb in routes then routes[verb] else []
  }

  /** `$route->resolve($url)` succeeds on a route compiled to `resolvedPath`. */
  predicate Resolves(resolvedPath: string, url: string, engine: Engine) {
    Attempt(resolvedPath, url, engine).Some?
  }

  /** `match` when no route resolves: an exception, or nothing. */
  function Miss(throwOnFail: bool): (r: Result<Outcome, RouterError>)
    ensures throwOnFail <==> r.Err?
    ensures r.Ok? ==> r.value.Nothing?
  {
    if throwOnFail then Err(NoMatchingRoute) else Ok(Nothing)
  }

  /**
   * How `match` ends once a route resolves, from its policy's verdict and
   * what running it gives: a policy that throws passes its exception on; a
   * refusal is an exception or nothing; an allowed route is returned, or
   * run.
   */
  function Verdict(route: Route, allowed: Result<bool, RouteError>, ran: Result<Response, RouteError>, returnRoute: bool, throwOnFail: bool): (r: Result<Outcome, RouterError>)
    ensures allowed.Err? ==> r == Err(RouteFailed(allowed.error))
    ensures allowed == Ok(false) ==> (r.Err? <==> throwOnFail) && (r.Err? ==> r.error == UnauthorizeRoute) && (r.Ok? ==> r.value.Nothing?)
    ensures allowed == Ok(true) && returnRoute ==> r == Ok(Found(route))
    ensures allowed == Ok(true) && !returnRoute ==> r == Answer(ran)
  {
    match allowed
    case Err(e) => Err(RouteFailed(e))
    case Ok(b) =>
      if !b then (if throwOnFail then Err(UnauthorizeRoute) else Ok(Nothing))
      else if returnRoute then Ok(Found(route))
      else Answer(ran)
  }

  /** `run($request)` is `match($request, false)`: it answers or throws, never returns a route or nothing. */
  lemma RunAnswers(route: Route, allowed: Result<bool, RouteError>, ran: Result<Response, RouteError>)
    ensures Verdict(route, allowed, ran, false, true).Ok? ==> Verdict(route, allowed, ran, false, true).value.Answered?
    ensures Miss(true).Err?
  {
  }

  /** `resolve($request, $throwException)` is `match($request, true, ...)`: never a response; when it throws, a found route or an exception. */
  lemma ResolveNeverAnswers(route: Route, allowed: Result<bool, RouteError>, ran: Result<Response, RouteError>, throwOnFail: bool)
    ensures Verdict(route, allowed, ran, true, throwOnFail).Ok? ==> !Verdict(route, allowed, ran, true, throwOnFail).value.Answered?
    ensures throwOnFail && Verdict(route, allowed, ran, true, throwOnFail).Ok? ==> Verdict(route, allowed, ran, true, throwOnFail) == Ok(Found(route))
  {
  }

  /** A route exception passed on, or the response. */
  function Answer(r: Result<Response, RouteError>): Result<Outcome, RouterError> {
    match r
    case Err(e) => Err(RouteFailed(e))
    case Ok(response) => Ok(Answered(response))
  }

  /** A refusal of `generateUri` on the route, passed on. */
  function UriAnswer(r: Result<string, UriError>): Result<string, RouterError> {
    match r
    case Err(e) => Err(UriFailed(e))
    case Ok(uri) => Ok(uri)
  }

  /** The compiled patterns of a list of routes, in order. */
  ghost function PathsOf(bucket: seq<Route>): (paths: seq<string>)
    reads bucket
    ensures |paths| == |bucket| && forall j :: 0 <= j < |bucket| ==> paths[j] == bucket[j].resolvedPath
  {
    seq(|bucket|, j requires 0 <= j < |bucket| reads bucket => bucket[j].resolvedPath)
  }

  /** The index of the first compiled pattern that resolves `url`, if any. */
  function FirstResolving(paths: seq<string>, url: string, engine: Engine): (r: Option<nat>)
    ensures r.Some? ==> r.value < |paths| && Resolves(paths[r.value], url, engine)
    decreases |paths|
  {
    if paths == [] then None
    else if Resolves(paths[0], url, engine) then Some(0)
    else match FirstResolving(paths[1..], url, engine)
      case None => None
      case Some(i) => Some(i + 1)
  }

  /** A pattern that resolves, with none before it that does, is the first. */
  lemma {:induction false} FirstResolvingAt(paths: seq<string>, url: string, engine: Engine, k: nat)
    requires k < |paths| && Resolves(paths[k], url, engine)
    requires forall j :: 0 <= j < k ==> !Resolves(paths[j], url, engine)
    ensures FirstResolving(paths, url, engine) == Some(k)
    decreases k
  {
    if k > 0 {
      assert paths[1..][k - 1] == paths[k];
      FirstResolvingAt(paths[1..], url, engine, k - 1);
    }
  }

  /** When no pattern resolves, there is no first. */
  lemma {:induction false} FirstResolvingNone(paths: seq<string>, url: string, engine: Engine)
    requires forall j :: 0 <= j < |paths| ==> !Resolves(paths[j], url, engine)
    ensures FirstResolving(paths, url, engine) == None
    decreases |paths|
  {
    if paths != [] {
      FirstResolvingNone(paths[1..], url, engine);
    }
  }

  /** Only patterns after the first resolving one may resolve too: registration order decides. */
  lemma {:induction false} FirstResolvingEarlier(paths: seq<string>, url: string, engine: Engine, j: nat)
    requires j < |paths| && Resolves(paths[j], url, engine)
    ensures FirstResolving(paths, url, engine).Some? && FirstResolving(paths, url, engine).value <= j
    decreases j
  {
    if j > 0 && !Resolves(paths[0], url, engine) {
      assert paths[1..][j - 1] == paths[j];
      FirstResolvingEarlier(paths[1..], url, engine, j - 1);
    }
  }

  /** A route object as an entry describes it. */
  ghost predicate Built(route: Route, e: Entry)
    reads route
  {
    route.path == e.path && route.name == e.name && route.callback == e.callback &&
    route.middlewares == e.middlewares && route.controllerNamespace == e.namespace
  }

  /** Each route object as the entry in the same position describes it. */
  ghost predicate AllBuilt(added: seq<Route>, es: seq<Entry>)
    reads added
  {
    |added| == |es| && forall i :: 0 <= i < |added| ==> Built(added[i], es[i])
  }

  lemma AllBuiltAppend(a1: seq<Route>, e1: seq<Entry>, a2: seq<Route>, e2: seq<Entry>)
    requires AllBuilt(a1, e1) && AllBuilt(a2, e2)
    ensures AllBuilt(a1 + a2, e1 + e2)
  {
    forall i | 0 <= i < |a1 + a2| ensures Built((a1 + a2)[i], (e1 + e2)[i]) {
      if i >= |a1| {
        assert (a1 + a2)[i] == a2[i - |a1|] && (e1 + e2)[i] == e2[i - |a1|];
      }
    }
  }

  lemma ConcatAssoc<T>(a: seq<T>, b: seq<T>, c: seq<T>)
    ensures a + (b + c) == (a + b) + c
  {
  }

  /** The buckets after each route is appended under its entry's method, in order. */
  function Store(routes: map<string, seq<Route>>, es: seq<Entry>, added: seq<Route>): map<string, seq<Route>>
    requires |es| == |added|
    decreases |es|
  {
    if es == [] then routes
    else Store(routes[es[0].verb := Bucket(routes, es[0].verb) + [added[0]]], es[1..], added[1..])
  }

  /** The name index after each route is recorded under its name, in order: a later name wins. */
  function Name(names: map<string, Route>, added: seq<Route>): map<string, Route>
    decreases |added|
  {
    if added == [] then names else Name(names[added[0].name := added[0]], added[1..])
  }

  /** Storing two runs of routes is storing them together. */
  lemma {:induction false} StoreAppend(routes: map<string, seq<Route>>, es1: seq<Entry>, a1: seq<Route>, es2: seq<Entry>, a2: seq<Route>)
    requires |es1| == |a1| && |es2| == |a2|
    ensures Store(Store(routes, es1, a1), es2, a2) == Store(routes, es1 + es2, a1 + a2)
    decreases |es1|
  {
    if es1 != [] {
      assert (es1 + es2)[0] == es1[0] && (es1 + es2)[1..] == es1[1..] + es2;
      assert (a1 + a2)[0] == a1[0] && (a1 + a2)[1..] == a1[1..] + a2;
      StoreAppend(routes[es1[0].verb := Bucket(routes, es1[0].verb) + [a1[0]]], es1[1..], a1[1..], es2, a2);
    } else {
      assert es1 + es2 == es2 && a1 + a2 == a2;
    }
  }

  /** Naming two runs of routes is naming them together. */
  lemma {:induction false} NameAppend(names: map<string, Route>, a1: seq<Route>, a2: seq<Route>)
    ensures Name(Name(names, a1), a2) == Name(names, a1 + a2)
    decreases |a1|
  {
    if a1 != [] {
      assert (a1 + a2)[0] == a1[0] && (a1 + a2)[1..] == a1[1..] + a2;
      NameAppend(names[a1[0].name := a1[0]], a1[1..], a2);
    } else {
      assert a1 + a2 == a2;
    }
  }

  /**
   * What serving a resolved route leaves behind: the router's container and
   * the decorated request are set on it, its policy is evaluated, and, when
   * the policy allows and the route is not merely returned, its pipeline runs
   * from middleware `cursor`; `r` is the verdict on all of that.
   */
  ghost predicate Served(route: Route, req: Request, container: Option<Container>, cursor: nat,
                         returnRoute: bool, throwOnFail: bool, host: Host, r: Result<Outcome, RouterError>)
    reads route
  {
    route.container == container && route.request == Some(Decorate(req, route.attributes, route.name)) &&
    var allowed := EvalPolicy(route.policy, route.attributes, route.request, container, route.name, host);
    var h := Dispatch.Run(RouteState(route.name, route.callback, route.controller, route.action, route.controllerNamespace, route.attributes, route.middlewares, cursor, route.policy, route.container), route.request.value, host);
    r == Verdict(route, allowed, h.result, returnRoute, throwOnFail) &&
    route.middlewareIndex == (if allowed == Ok(true) && !returnRoute then h.index else cursor)
  }

  class Router {
    /** The routes of each HTTP method, in registration order. */
    var routes: map<string, seq<Route>>
    /** The last route registered under each name. */
    var routeNames: map<string, Route>
    var controllerNamespace: Option<string>
    /** The prefixes of the enclosing `group` calls, outermost first. */
    var groupUri: seq<string>
    /** The middlewares of the enclosing `middleware` and `middlewares` calls. */
    var middlewares: seq<Middleware>
    var container: Option<Container>

    constructor (container: Option<Container>)
      ensures routes == map[] && routeNames == map[] && controllerNamespace == None
      ensures groupUri == [] && middlewares == [] && this.container == container
    {
      routes := map[];
      routeNames := map[];
      controllerNamespace := None;
      groupUri := [];
      middlewares := [];
      this.container := container;
    }

    /** The registration state, as a value. */
    function CurrentScope(): Scope
      reads this
    {
      Scope(groupUri, middlewares, controllerNamespace)
    }

    /** `getRoute($name)`. */
    function GetRoute(name: string): (r: Option<Route>)
      reads this
      ensures r.Some? <==> name in routeNames
      ensures r.Some? ==> r.value == routeNames[name]
    {
      if name in routeNames then Some(routeNames[name]) else None
    }

    /** `addRoute($method, $route)`: the route replaces any other of its name and goes last among its method's. */
    method AddRoute(verb: string, route: Route)
      modifies this`routes, this`routeNames
      ensures routeNames == old(routeNames)[route.name := route]
      ensures routes == old(routes)[verb := Bucket(old(routes), verb) + [route]]
      ensures GetRoute(route.name) == Some(route)
    {
      routeNames := routeNames[route.name := route];
      routes := routes[verb := Bucket(routes, verb) + [route]];
    }

    /**
     * The route `add` builds on the prefixed path: it takes the middleware
     * stack and, when one is set, the controller namespace.
     */
    method Build(path: string, callback: Callback, given: Option<string>, host: Host) returns (r: Result<Route, RouterError>)
      ensures r.Err? <==> AddCheck(path, callback, given, CurrentScope(), host).Err?
      ensures r.Err? ==> r.error == AddCheck(path, callback, given, CurrentScope(), host).error
      ensures r.Ok? ==> fresh(r.value) && r.value.callback == callback
      ensures r.Ok? ==> r.value.path == TrimSlashes(GroupUriToString(groupUri) + path)
      ensures r.Ok? ==> r.value.name == RouteName(callback, path, given)
      ensures r.Ok? ==> Pass2(r.value.resolvedPath, r.value.params, r.value.matchedKeys) == Compile(r.value.path, [], [])
      ensures r.Ok? ==> r.value.middlewares == AddMiddlewares([], middlewares, host).0
      ensures r.Ok? ==> r.value.middlewares == FirstSeen(middlewares)
      ensures r.Ok? ==> r.value.Valid()
      ensures r.Ok? ==> r.value.controllerNamespace == Inherited(controllerNamespace)
    {
      var name := RouteName(callback, path, given);
      var created := Route.Create(GroupUriToString(groupUri) + path, callback, Some(name), host);
      if created.Err? {
        return Err(RouteFailed(created.error));
      }
      var route := created.value;
      var checked := route.SetMiddlewares(middlewares, host);
      if checked.Err? {
        return Err(RouteFailed(checked.error));
      }
      if controllerNamespace.Some? && !EmptyString(controllerNamespace.value) {
        route.SetControllerNamespace(controllerNamespace.value);
      }
      AddMiddlewaresFromEmpty(middlewares, host);
      r := Ok(route);
    }

    /** `add($method, $path, $callback, $name)`: the built route is stored; a refusal stores nothing. */
    method Add(verb: string, path: string, callback: Callback, given: Option<string>, host: Host) returns (r: Result<Route, RouterError>)
      modifies this`routes, this`routeNames
      ensures r.Err? <==> AddCheck(path, callback, given, CurrentScope(), host).Err?
      ensures r.Err? ==> r.error == AddCheck(path, callback, given, CurrentScope(), host).error
      ensures r.Err? ==> routes == old(routes) && routeNames == old(routeNames)
      ensures r.Ok? ==> fresh(r.value) && r.value.callback == callback
      ensures r.Ok? ==> r.value.path == TrimSlashes(GroupUriToString(groupUri) + path)
      ensures r.Ok? ==> r.value.name == RouteName(callback, path, given)
      ensures r.Ok? ==> Pass2(r.value.resolvedPath, r.value.params, r.value.matchedKeys) == Compile(r.value.path, [], [])
      ensures r.Ok? ==> r.value.middlewares == AddMiddlewares([], middlewares, host).0
      ensures r.Ok? ==> r.value.middlewares == FirstSeen(middlewares)
      ensures r.Ok? ==> r.value.Valid()
      ensures r.Ok? ==> r.value.controllerNamespace == Inherited(controllerNamespace)
      ensures r.Ok? ==> routeNames == old(routeNames)[r.value.name := r.value]
      ensures r.Ok? ==> routes == old(routes)[verb := Bucket(old(routes), verb) + [r.value]]
    {
      r := Build(path, callback, given, host);
      if r.Ok? {
        AddRoute(verb, r.value);
      }
    }

    /** `addGroupUri($uri)`. */
    method AddGroupUri(uri: string)
      modifies this`groupUri
      ensures groupUri == old(groupUri) + [uri]
    {
      groupUri := groupUri + [uri];
    }

    /** `removeGroupUri($uri)`: its last occurrence goes. */
    method RemoveGroupUri(uri: string)
      modifies this`groupUri
      ensures groupUri == RemoveLast(old(groupUri), uri)
    {
      groupUri := RemoveLast(groupUri, uri);
    }

    /** `hasMiddleware($middleware)`. */
    predicate HasMiddleware(m: Middleware)
      reads this
    {
      Registration.HasMiddleware(middlewares, m)
    }

    /** `removeMiddleware($middleware)`: its last occurrence goes. */
    method RemoveMiddleware(m: Middleware)
      modifies this`middlewares
      ensures middlewares == RemoveLast(old(middlewares), m)
    {
      middlewares := RemoveLast(middlewares, m);
    }

    /** `setControllerNamespace($ns)`: a namespace the pattern refuses is an error and changes nothing. */
    method SetControllerNamespace(ns: string) returns (r: Result<(), RouterError>)
      modifies this`controllerNamespace
      ensures r == if ValidNamespace(ns) then Ok(()) else Err(InvalidNamespace)
      ensures controllerNamespace == if ValidNamespace(ns) then Some(ns) else old(controllerNamespace)
    {
      if !ValidNamespace(ns) {
        return Err(InvalidNamespace);
      }
      controllerNamespace := Some(ns);
      r := Ok(());
    }

    /** `setContainer($container)`. */
    method SetContainer(c: Container)
      modifies this`container
      ensures container == Some(c)
    {
      container := Some(c);
    }

    /** One call the registration callback makes on the router. */
    method Exec(c: Cmd, host: Host) returns (r: Result<(), RouterError>, ghost added: seq<Route>)
      modifies this`routes, this`routeNames, this`groupUri, this`middlewares, this`controllerNamespace
      ensures (CurrentScope(), r) == Registration.Exec(c, old(CurrentScope()), host)
      ensures AllBuilt(added, Registration.Added(c, old(CurrentScope()), host))
      ensures forall i :: 0 <= i < |added| ==> fresh(added[i])
      ensures routes == Store(old(routes), Registration.Added(c, old(CurrentScope()), host), added)
      ensures routeNames == Name(old(routeNames), added)
      decreases c, 1
    {
      match c
      case Add(verb, path, callback, name) =>
        var route := Add(verb, path, callback, name, host);
        if route.Err? {
          r, added := Err(route.error), [];
        } else {
          assert AddCheck(path, callback, name, CurrentScope(), host).value == ();
          r, added := Ok(()), [route.value];
          assert Registration.Added(c, old(CurrentScope()), host) == [EntryOf(verb, path, callback, name, CurrentScope())];
        }
      case Group(prefix, body) =>
        r, added := Group(prefix, body, host);
      case Use(m, body) =>
        r, added := Middleware(m, body, host);
      case UseAll(ms, body) =>
        r, added := Middlewares(ms, body, host);
      case SetNamespace(ns) =>
        r := SetControllerNamespace(ns);
        added := [];
    }

    /** The registration callback: its calls in order, up to the first that throws. */
    method ExecAll(cs: seq<Cmd>, host: Host) returns (r: Result<(), RouterError>, ghost added: seq<Route>)
      modifies this`routes, this`routeNames, this`groupUri, this`middlewares, this`controllerNamespace
      ensures (CurrentScope(), r) == Registration.ExecAll(cs, old(CurrentScope()), host)
      ensures AllBuilt(added, AddedAll(cs, old(CurrentScope()), host))
      ensures forall i :: 0 <= i < |added| ==> fresh(added[i])
      ensures routes == Store(old(routes), AddedAll(cs, old(CurrentScope()), host), added)
      ensures routeNames == Name(old(routeNames), added)
      decreases cs, 0
    {
      if cs == [] {
        return Ok(()), [];
      }
      ghost var before := CurrentScope();
      ghost var routes0, names0 := routes, routeNames;
      ExecAllStep(cs, before, host);
      ghost var first;
      r, first := Exec(cs[0], host);
      ghost var e := Registration.Added(cs[0], before, host);
      if r.Err? {
        assert AddedAll(cs, before, host) == e + [] == e;
        return r, first;
      }
      ghost var mid := CurrentScope();
      ghost var rest;
      r, rest := ExecAll(cs[1..], host);
      ghost var es := AddedAll(cs[1..], mid, host);
      AllBuiltAppend(first, e, rest, es);
      StoreAppend(routes0, e, first, es, rest);
      NameAppend(names0, first, rest);
      added := first + rest;
    }

    /** `group($uri, $callback)`: the prefix is pushed around the callback and popped if it returns. */
    method Group(prefix: string, body: seq<Cmd>, host: Host) returns (r: Result<(), RouterError>, ghost added: seq<Route>)
      modifies this`routes, this`routeNames, this`groupUri, this`middlewares, this`controllerNamespace
      ensures (CurrentScope(), r) == Registration.Exec(Cmd.Group(prefix, body), old(CurrentScope()), host)
      ensures AllBuilt(added, Registration.Added(Cmd.Group(prefix, body), old(CurrentScope()), host))
      ensures forall i :: 0 <= i < |added| ==> fresh(added[i])
      ensures routes == Store(old(routes), Registration.Added(Cmd.Group(prefix, body), old(CurrentScope()), host), added)
      ensures routeNames == Name(old(routeNames), added)
      decreases body, 2
    {
      AddGroupUri(prefix);
      r, added := ExecAll(body, host);
      if r.Err? {
        return;
      }
      RemoveGroupUri(prefix);
      r := Ok(());
    }

    /** `middleware($middleware, $callback)`: pushed unless found, popped if the callback returns. */
    method Middleware(m: Middleware, body: seq<Cmd>, host: Host) returns (r: Result<(), RouterError>, ghost added: seq<Route>)
      modifies this`routes, this`routeNames, this`groupUri, this`middlewares, this`controllerNamespace
      ensures (CurrentScope(), r) == Registration.Exec(Use(m, body), old(CurrentScope()), host)
      ensures AllBuilt(added, Registration.Added(Use(m, body), old(CurrentScope()), host))
      ensures forall i :: 0 <= i < |added| ==> fresh(added[i])
      ensures routes == Store(old(routes), Registration.Added(Use(m, body), old(CurrentScope()), host), added)
      ensures routeNames == Name(old(routeNames), added)
      decreases body, 2
    {
      if m.MwOther? {
        return Err(MiddlewareTypeError), [];
      }
      if !HasMiddleware(m) {
        middlewares := middlewares + [m];
      }
      r, added := ExecAll(body, host);
      if r.Err? {
        return;
      }
      RemoveMiddleware(m);
      r := Ok(());
    }

    /** `middlewares($middlewares, $callback)`: each pushed unless found, each popped if the callback returns. */
    method Middlewares(ms: seq<Middleware>, body: seq<Cmd>, host: Host) returns (r: Result<(), RouterError>, ghost added: seq<Route>)
      modifies this`routes, this`routeNames, this`groupUri, this`middlewares, this`controllerNamespace
      ensures (CurrentScope(), r) == Registration.Exec(UseAll(ms, body), old(CurrentScope()), host)
      ensures AllBuilt(added, Registration.Added(UseAll(ms, body), old(CurrentScope()), host))
      ensures forall i :: 0 <= i < |added| ==> fresh(added[i])
      ensures routes == Store(old(routes), Registration.Added(UseAll(ms, body), old(CurrentScope()), host), added)
      ensures routeNames == Name(old(routeNames), added)
      decreases body, 2
    {
      var i := 0;
      while i < |ms|
        invariant 0 <= i <= |ms|
        invariant PushAll(middlewares, ms[i..]) == PushAll(old(middlewares), ms)
        invariant groupUri == old(groupUri) && controllerNamespace == old(controllerNamespace)
        invariant routes == old(routes) && routeNames == old(routeNames)
        decreases |ms| - i
      {
        assert ms[i..][0] == ms[i] && ms[i..][1..] == ms[i + 1..];
        if ms[i].MwOther? {
          return Err(MiddlewareTypeError), [];
        }
        if !HasMiddleware(ms[i]) {
          middlewares := middlewares + [ms[i]];
        }
        i := i + 1;
      }
      assert ms[i..] == [];
      r, added := ExecAll(body, host);
      if r.Err? {
        return;
      }
      ghost var inner := CurrentScope();
      ghost var stored, named := routes, routeNames;
      ghost var es := AddedAll(body, old(CurrentScope()).(middlewares := PushAll(old(middlewares), ms).0), host);
      i := 0;
      while i < |ms|
        invariant 0 <= i <= |ms|
        invariant RemoveAll(middlewares, ms[i..]) == RemoveAll(inner.middlewares, ms)
        invariant groupUri == inner.groups && controllerNamespace == inner.namespace
        invariant routes == stored && routeNames == named && AllBuilt(added, es)
        decreases |ms| - i
      {
        assert ms[i..][0] == ms[i] && ms[i..][1..] == ms[i + 1..];
        RemoveMiddleware(ms[i]);
        i := i + 1;
      }
      assert ms[i..] == [];
      r := Ok(());
    }

    /** `generateUri($name, $params, $fragment)`: an unknown name is an error; otherwise the route generates. */
    method GenerateUri(name: string, args: OMap<string>, fragment: Option<string>, engine: Engine, encode: string -> string) returns (r: Result<string, RouterError>)
      ensures name !in routeNames ==> r == Err(UnknownRoute(name))
      ensures name in routeNames ==>
        r == UriAnswer(Uris.GenerateUri(routeNames[name].path, routeNames[name].params, args, fragment, engine, encode))
      ensures name in routeNames && routeNames[name].Valid() ==>
        (r.Ok? <==> AllAccepted(routeNames[name].params, args, engine))
    {
      var route := GetRoute(name);
      if route.None? {
        return Err(UnknownRoute(name));
      }
      var uri := route.value.GenerateUri(args, fragment, engine, encode);
      r := UriAnswer(uri);
    }

    /** `$route->resolve($url)`, stated through `Resolves`. */
    method Probe(route: Route, url: string, engine: Engine) returns (ok: bool)
      modifies route`matches, route`attributes
      ensures ok == Resolves(route.resolvedPath, url, engine)
      ensures !ok ==> unchanged(route`matches, route`attributes)
      ensures ok ==> var m := Attempt(route.resolvedPath, url, engine);
        m.Some? && route.matches == Shifted(m.value) &&
        route.attributes == (if route.matchedKeys != [] then Zip(route.matchedKeys, route.matches) else old(route.attributes))
    {
      ok := route.Resolve(url, engine);
    }

    /**
     * The loop of `match`: each route in turn resolves the URL until one
     * succeeds; the routes before it are left as they were.
     */
    method FindRoute(bucket: seq<Route>, url: string, engine: Engine) returns (found: Option<nat>, ghost paths: seq<string>)
      modifies bucket`matches, bucket`attributes
      ensures |paths| == |bucket| && forall j :: 0 <= j < |bucket| ==> paths[j] == bucket[j].resolvedPath
      ensures found == FirstResolving(paths, url, engine)
      ensures forall j :: 0 <= j < |bucket| && (found.None? || bucket[j] != bucket[found.value]) ==>
        bucket[j].matches == old(bucket[j].matches) && bucket[j].attributes == old(bucket[j].attributes)
      ensures found.Some? ==> var route := bucket[found.value];
        var m := Attempt(paths[found.value], url, engine);
        m.Some? && route.matches == Shifted(m.value) &&
        route.attributes == (if route.matchedKeys != [] then Zip(route.matchedKeys, route.matches) else old(route.attributes))
    {
      paths := PathsOf(bucket);
      var k := 0;
      while k < |bucket|
        invariant 0 <= k <= |bucket|
        invariant forall j :: 0 <= j < |bucket| ==> paths[j] == bucket[j].resolvedPath
        invariant forall j :: 0 <= j < k ==> !Resolves(paths[j], url, engine)
        invariant forall j :: 0 <= j < |bucket| ==> (bucket[j].matches == old(bucket[j].matches) && bucket[j].attributes == old(bucket[j].attributes))
        decreases |bucket| - k
      {
        assert paths[k] == bucket[k].resolvedPath;
        var ok := Probe(bucket[k], url, engine);
        assert ok == Resolves(paths[k], url, engine);
        if ok {
          found := Some(k);
          FirstResolvingAt(paths, url, engine, k);
          return;
        }
        k := k + 1;
      }
      found := None;
      FirstResolvingNone(paths, url, engine);
    }

    /**
     * The part of `match` after a route resolves: the route gets the
     * router's container and the decorated request, and its policy decides.
     */
    method Serve(route: Route, req: Request, returnRoute: bool, throwOnFail: bool, host: Host, ghost cursor: nat, ghost bucket: seq<Route>) returns (r: Result<Outcome, RouterError>)
      requires cursor == route.middlewareIndex
      modifies route`container, route`request, route`middlewareIndex
      ensures Served(route, req, container, cursor, returnRoute, throwOnFail, host, r)
      ensures forall j :: 0 <= j < |bucket| ==>
        bucket[j].resolvedPath == old(bucket[j].resolvedPath) && bucket[j].matchedKeys == old(bucket[j].matchedKeys) &&
        bucket[j].matches == old(bucket[j].matches) && bucket[j].attributes == old(bucket[j].attributes)
      ensures forall j :: 0 <= j < |bucket| && bucket[j] != route ==>
        bucket[j].container == old(bucket[j].container) && bucket[j].request == old(bucket[j].request) &&
        bucket[j].middlewareIndex == old(bucket[j].middlewareIndex)
    {
      route.SetContainer(container);
      route.SetRequest(req);
      var allowed := route.GetPolicy(host);
      if allowed.Err? {
        return Err(RouteFailed(allowed.error));
      }
      if !allowed.value {
        return if throwOnFail then Err(UnauthorizeRoute) else Ok(Nothing);
      }
      if returnRoute {
        return Ok(Found(route));
      }
      var answer := route.Run(req, host);
      r := Answer(answer);
    }

    /**
     * `match($request, $returnRoute, $throwException)`, which `run` calls
     * with `false, true` and `resolve` with `true, $throwException`: the
     * first route of the request's method that resolves the path is
     * served; the others keep their state.
     */
    method Match(req: Request, returnRoute: bool, throwOnFail: bool, host: Host, engine: Engine)
      returns (r: Result<Outcome, RouterError>, ghost bucket: seq<Route>, ghost paths: seq<string>, ghost found: Option<nat>)
      modifies Bucket(routes, req.verb)`matches, Bucket(routes, req.verb)`attributes
      modifies Bucket(routes, req.verb)`container, Bucket(routes, req.verb)`request, Bucket(routes, req.verb)`middlewareIndex
      ensures bucket == Bucket(routes, req.verb)
      ensures |paths| == |bucket| && forall j :: 0 <= j < |bucket| ==> paths[j] == bucket[j].resolvedPath
      ensures found == FirstResolving(paths, req.path, engine)
      ensures found.None? ==> r == Miss(throwOnFail)
      ensures forall j :: 0 <= j < |bucket| && (found.None? || bucket[j] != bucket[found.value]) ==>
        bucket[j].matches == old(bucket[j].matches) && bucket[j].attributes == old(bucket[j].attributes) &&
        bucket[j].container == old(bucket[j].container) && bucket[j].request == old(bucket[j].request) &&
        bucket[j].middlewareIndex == old(bucket[j].middlewareIndex)
      ensures found.Some? ==> var route := bucket[found.value];
        var m := Attempt(paths[found.value], req.path, engine);
        m.Some? && route.matches == Shifted(m.value) &&
        route.attributes == (if route.matchedKeys != [] then Zip(route.matchedKeys, route.matches) else old(route.attributes)) &&
        Served(route, req, container, old(route.middlewareIndex), returnRoute, throwOnFail, host, r)
    {
      var routesOf := Bucket(routes, req.verb);
      bucket := routesOf;
      var index;
      index, paths := FindRoute(routesOf, req.path, engine);
      found := index;
      if index.None? {
        r := Miss(throwOnFail);
        return;
      }
      var route := routesOf[index.value];
      r := Serve(route, req, returnRoute, throwOnFail, host, old(route.middlewareIndex), routesOf);
    }
  }
}
