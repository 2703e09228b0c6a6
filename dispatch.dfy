/**
 * The fixed-order rules a route applies when it runs: which value each
 * handler or policy parameter receives, how a policy is evaluated, which
 * middleware entries are accepted, how the middleware chain advances its
 * cursor, and how whatever a handler returns becomes a response. The HTTP
 * objects, the dependency container, reflection and all user code are
 * abstract inputs.
 */
module Dispatch {
  import opened Wrappers
  import opened Php
  import opened Callbacks

  /** The interface name that marks a parameter as "give me the request". */
  const SERVER_REQUEST := "Psr\\Http\\Message\\ServerRequestInterface"
  /** The request attribute under which a route stores itself. */
  const ROUTE_ATTRIBUTE := "__route"

  /** A response: status code and body (what the router looks at). */
  datatype Response = Response(status: int, body: string)

  /** The default status of a response built from a body. */
  const OK_STATUS := 200

  /** PHP values that reach the router from user code. */
  datatype Value =
    | VText(s: string)
    | VInt(i: int)
    | VBool(b: bool)
    | VNull
    | VList(items: seq<Value>)
    | VObject(id: nat)
    | VResponse(response: Response)

  /** PHP's `(bool)` cast. */
  predicate Truthy(v: Value) {
    match v
    case VText(s) => !EmptyString(s)
    case VInt(i) => i != 0
    case VBool(b) => b
    case VNull => false
    case VList(items) => items != []
    case VObject(_) => true
    case VResponse(_) => true
  }

  /** A request attribute: a matched parameter, or the route (identified by its name). */
  datatype Attr = AText(s: string) | ARoute(route: string)

  /** A server request: method, URI path and attributes. */
  datatype Request = Request(verb: string, path: string, attributes: OMap<Attr>)

  /** A parameter as reflection describes it. */
  datatype Param = Param(name: string, typ: Option<string>, default: Option<Value>)

  /** What a handler or policy parameter is given. */
  datatype Arg = ArgRequest(req: Request) | ArgText(s: string) | ArgValue(v: Value)

  /** A PSR-11 container: `has`, and `get`, which may throw. */
  datatype Container = Container(has: string -> bool, get: string -> Result<Value, string>)

  /** A middleware entry: a class name, a `[class, method]` pair, a callable object, or anything else. */
  datatype Middleware =
    | MwName(name: string)
    | MwPair(cls: string, action: string)
    | MwClosure(id: nat)
    | MwOther(id: nat)

  /** What a middleware did: answered, returned a plain value, passed on to the route, or threw. */
  datatype MwResult =
    | MwResponse(response: Response)
    | MwBody(body: string)
    | MwForward(request: Request)
    | MwFail(message: string)

  /** A stored policy. */
  datatype Policy = PolicyBool(b: bool) | PolicyCallable(id: nat) | PolicyClass(cls: string, action: string)

  /** What `setPolicy` may be given. */
  datatype PolicyInput = GiveBool(b: bool) | GiveName(s: string) | GiveCallable(id: nat) | GivePair(cls: string, action: string)

  /** What a policy is called as: a callable, or a method of a policy object. */
  datatype PolicyTarget = TargetCallable(id: nat) | TargetMethod(obj: Value, action: string)

  /** `new $class()`: an object, too few arguments for the constructor, or another failure. */
  datatype Construction = Built(obj: Value) | TooFewArguments | ConstructFailed(message: string)

  /** Class loading and reflection. */
  datatype Reflection = Reflection(
    classExists: string -> bool,
    interfaceExists: string -> bool,
    methodExists: (string, string) -> bool,
    objectHasMethod: (Value, string) -> bool,
    classOf: Value -> string,
    implementsMiddleware: string -> bool,
    implementsPolicy: string -> bool,
    callbackIsCallable: Callback -> bool,
    middlewareIsCallable: Middleware -> bool,
    functionParams: Callback -> Result<seq<Param>, string>,
    methodParams: (Value, string) -> seq<Param>,
    policyParams: PolicyTarget -> Result<seq<Param>, string>)

  /** User code: constructors, handlers, middleware, policies, and PHP's conversions of returned values. */
  datatype Code = Code(
    construct: string -> Construction,
    call: (Callback, OMap<Arg>) -> Result<Value, string>,
    invoke: (Value, string, OMap<Arg>) -> Result<Value, string>,
    middleware: (Middleware, Request) -> MwResult,
    policyCall: (PolicyTarget, OMap<Arg>) -> Result<Value, string>,
    json: Value -> string,
    valueIsCallable: Value -> bool,
    callValue: Value -> string,
    isStringable: Value -> bool,
    stringify: Value -> string)

  datatype Host = Host(reflect: Reflection, code: Code)

  /** The exceptions a route raises, told apart by what their messages say. */
  datatype RouteError =
    | CallbackRejected(reason: CallbackError)
    | Unauthorized
    | UntypedArgument(name: string)
    | CannotResolveArgument(name: string)
    | ClassNotFound(cls: string)
    | MissingContainer(dependency: Option<string>)
    | MethodNotFound(action: string, cls: string)
    | UnresolvedPolicyParameter(name: string, route: string)
    | PolicyNotImplemented(cls: string)
    | NoSuchClass(cls: string)
    | InvalidMiddleware
    | NoResponse
    | ResponseTypeError
    | Raised(message: string)

  // ---------------------------------------------------------------------------
  // Responses

  /** `isRedirect`: the status is 301, 302 or 308. */
  predicate IsRedirect(r: Response) {
    r.status == 301 || r.status == 302 || r.status == 308
  }

  /**
   * The values `resolveResponse`'s parameter type admits under strict typing:
   * a response, an array, a string, and an object that is callable or
   * `Stringable`. An int, a bool or null is none of these.
   */
  predicate ResponseLike(v: Value, host: Host) {
    match v
    case VResponse(_) => true
    case VList(_) => true
    case VText(_) => true
    case VObject(_) => host.code.valueIsCallable(v) || host.code.isStringable(v)
    case _ => false
  }

  /**
   * `resolveResponse`: a response is returned as it is; an array becomes its
   * JSON; a callable value is called and its result is the body; a string or
   * a `Stringable` object is cast to a string. All but the first get the
   * default status. Any other value is refused by the parameter's type.
   */
  function ResolveResponse(v: Value, host: Host): (r: Result<Response, RouteError>)
    ensures r.Ok? <==> ResponseLike(v, host)
    ensures r.Err? ==> r.error == ResponseTypeError
    ensures v.VResponse? ==> r == Ok(v.response)
    ensures r.Ok? && !v.VResponse? ==> r.value.status == OK_STATUS
    ensures v.VList? ==> r == Ok(Response(OK_STATUS, host.code.json(v)))
    ensures v.VText? && !host.code.valueIsCallable(v) ==> r == Ok(Response(OK_STATUS, v.s))
    ensures v.VInt? || v.VBool? || v.VNull? ==> r == Err(ResponseTypeError)
  {
    if v.VResponse? then Ok(v.response)
    else if v.VList? then Ok(Response(OK_STATUS, host.code.json(v)))
    else if !ResponseLike(v, host) then Err(ResponseTypeError)
    else if host.code.valueIsCallable(v) then Ok(Response(OK_STATUS, host.code.callValue(v)))
    else if v.VText? then Ok(Response(OK_STATUS, v.s))
    else Ok(Response(OK_STATUS, host.code.stringify(v)))
  }

  /**
   * A handler that returns a string naming a function does not get that
   * string as its body: the function is called and its result is used.
   */
  lemma CallableTextIsCalled(s: string, host: Host)
    requires host.code.valueIsCallable(VText(s))
    ensures ResolveResponse(VText(s), host) == Ok(Response(OK_STATUS, host.code.callValue(VText(s))))
  {
  }

  // ---------------------------------------------------------------------------
  // Request attributes

  /** `$request->withAttribute(k, v)` for each attribute, in order. */
  function AddAttributes(req: Request, attrs: OMap<string>): (r: Request)
    ensures r.verb == req.verb && r.path == req.path
    decreases |attrs|
  {
    if attrs == [] then req
    else AddAttributes(Request(req.verb, req.path, Put(req.attributes, attrs[0].0, AText(attrs[0].1))), attrs[1..])
  }

  /** `setRequest`: the route's attributes, then the route itself under `__route`. */
  function Decorate(req: Request, attrs: OMap<string>, route: string): (r: Request)
    ensures r.verb == req.verb && r.path == req.path
  {
    var d := AddAttributes(req, attrs);
    Request(d.verb, d.path, Put(d.attributes, ROUTE_ATTRIBUTE, ARoute(route)))
  }

  /** Each route attribute overrides the request's own attribute of that name. */
  lemma {:induction false} AddAttributesGet(req: Request, attrs: OMap<string>, k: string)
    ensures Get(AddAttributes(req, attrs).attributes, k) ==
      if HasKey(attrs, k) then Some(AText(LastValue(attrs, k))) else Get(req.attributes, k)
    decreases |attrs|
  {
    if attrs != [] {
      var req' := Request(req.verb, req.path, Put(req.attributes, attrs[0].0, AText(attrs[0].1)));
      AddAttributesGet(req', attrs[1..], k);
      PutGet(req.attributes, attrs[0].0, AText(attrs[0].1), k);
      assert Keys(attrs) == [attrs[0].0] + Keys(attrs[1..]);
    }
  }

  /** The value of the last pair for `k` (the one PHP keeps). */
  function LastValue(attrs: OMap<string>, k: string): string
    decreases |attrs|
  {
    if attrs == [] then ""
    else if HasKey(attrs[1..], k) then LastValue(attrs[1..], k)
    else if attrs[0].0 == k then attrs[0].1
    else ""
  }

  /** With distinct keys the last pair for a key is also the first. */
  lemma {:induction false} LastValueUnique(attrs: OMap<string>, k: string)
    requires UniqueKeys(attrs) && HasKey(attrs, k)
    ensures Get(attrs, k) == Some(LastValue(attrs, k))
    decreases |attrs|
  {
    assert Keys(attrs) == [attrs[0].0] + Keys(attrs[1..]);
    if attrs[0].0 == k {
      forall j | 0 <= j < |attrs[1..]|
        ensures Keys(attrs[1..])[j] != k
      {
        assert attrs[1..][j] == attrs[j + 1] && attrs[0].0 != attrs[j + 1].0;
      }
    } else {
      assert forall i, j :: 0 <= i < j < |attrs[1..]| ==> attrs[1..][i] == attrs[i + 1] && attrs[1..][j] == attrs[j + 1];
      LastValueUnique(attrs[1..], k);
    }
  }

  /**
   * After `setRequest` the request carries the route under `__route`, every
   * matched attribute as text, and its other attributes unchanged.
   */
  lemma DecorateGet(req: Request, attrs: OMap<string>, route: string, k: string)
    requires UniqueKeys(attrs)
    ensures Get(Decorate(req, attrs, route).attributes, k) ==
      if k == ROUTE_ATTRIBUTE then Some(ARoute(route))
      else if HasKey(attrs, k) then Some(AText(Get(attrs, k).value))
      else Get(req.attributes, k)
  {
    var d := AddAttributes(req, attrs);
    PutGet(d.attributes, ROUTE_ATTRIBUTE, ARoute(route), k);
    AddAttributesGet(req, attrs, k);
    if HasKey(attrs, k) {
      LastValueUnique(attrs, k);
    }
  }

  // ---------------------------------------------------------------------------
  // Handler parameters

  /**
   * `resolveBuildParams` for one parameter: an untyped parameter is refused;
   * a request-typed one gets the request; otherwise a truthy matched attribute
   * of its name, else its default, else the container by type (when the type
   * is a class or an interface) or by name. No container, or a container that
   * throws, is reported as an argument that cannot be resolved.
   */
  function BindArg(p: Param, attrs: OMap<string>, req: Request, container: Option<Container>, host: Host): (r: Result<Arg, RouteError>)
    ensures p.typ.None? <==> r == Err(UntypedArgument(p.name))
    ensures r.Err? ==> r.error == UntypedArgument(p.name) || r.error == CannotResolveArgument(p.name)
  {
    if p.typ.None? then Err(UntypedArgument(p.name))
    else if p.typ.value == SERVER_REQUEST then Ok(ArgRequest(req))
    else if Get(attrs, p.name).Some? && !EmptyString(Get(attrs, p.name).value) then Ok(ArgText(Get(attrs, p.name).value))
    else if p.default.Some? then Ok(ArgValue(p.default.value))
    else if container.None? then Err(CannotResolveArgument(p.name))
    else
      var t := p.typ.value;
      var key := if host.reflect.classExists(t) || host.reflect.interfaceExists(t) then t else p.name;
      match container.value.get(key)
      case Ok(v) => Ok(ArgValue(v))
      case Err(_) => Err(CannotResolveArgument(p.name))
  }

  /** The named arguments for a parameter list, or the first refusal. */
  function BindArgs(ps: seq<Param>, attrs: OMap<string>, req: Request, container: Option<Container>, host: Host, acc: OMap<Arg>): (r: Result<OMap<Arg>, RouteError>)
    decreases |ps|
  {
    if ps == [] then Ok(acc)
    else match BindArg(ps[0], attrs, req, container, host)
      case Err(e) => Err(e)
      case Ok(a) => BindArgs(ps[1..], attrs, req, container, host, Put(acc, ps[0].name, a))
  }

  /** No parameter is refused. */
  predicate AllBind(ps: seq<Param>, attrs: OMap<string>, req: Request, container: Option<Container>, host: Host) {
    forall i :: 0 <= i < |ps| ==> BindArg(ps[i], attrs, req, container, host).Ok?
  }

  /**
   * The arguments are built exactly when every parameter binds, and then each
   * parameter's name carries what its own rule chose.
   */
  lemma {:induction false} BindArgsOk(ps: seq<Param>, attrs: OMap<string>, req: Request, container: Option<Container>, host: Host, acc: OMap<Arg>, k: string)
    ensures BindArgs(ps, attrs, req, container, host, acc).Ok? <==> AllBind(ps, attrs, req, container, host)
    ensures BindArgs(ps, attrs, req, container, host, acc).Ok? ==>
        match LastParam(ps, k)
        case Some(p) => BindArg(p, attrs, req, container, host).Ok? &&
          Get(BindArgs(ps, attrs, req, container, host, acc).value, k) == Some(BindArg(p, attrs, req, container, host).value)
        case None => Get(BindArgs(ps, attrs, req, container, host, acc).value, k) == Get(acc, k)
    decreases |ps|
  {
    if ps != [] {
      AllBindCons(ps, attrs, req, container, host);
      match BindArg(ps[0], attrs, req, container, host)
      case Err(_) =>
      case Ok(a) =>
        PutGet(acc, ps[0].name, a, k);
        BindArgsOk(ps[1..], attrs, req, container, host, Put(acc, ps[0].name, a), k);
    }
  }

  /** Every parameter binds when the first does and every later one does. */
  lemma AllBindCons(ps: seq<Param>, attrs: OMap<string>, req: Request, container: Option<Container>, host: Host)
    requires ps != []
    ensures AllBind(ps, attrs, req, container, host) <==>
      BindArg(ps[0], attrs, req, container, host).Ok? && AllBind(ps[1..], attrs, req, container, host)
  {
    assert forall i :: 1 <= i < |ps| ==> ps[i] == ps[1..][i - 1];
  }

  /** The last parameter called `k` (PHP parameter names are distinct, so the only one). */
  function LastParam(ps: seq<Param>, k: string): (r: Option<Param>)
    ensures r.Some? ==> r.value in ps && r.value.name == k
    decreases |ps|
  {
    if ps == [] then None
    else match LastParam(ps[1..], k)
      case Some(p) => Some(p)
      case None => if ps[0].name == k then Some(ps[0]) else None
  }

  /** The first refusal is reported: every parameter before it binds. */
  lemma {:induction false} BindArgsFirstError(ps: seq<Param>, attrs: OMap<string>, req: Request, container: Option<Container>, host: Host, acc: OMap<Arg>)
    requires BindArgs(ps, attrs, req, container, host, acc).Err?
    ensures exists i :: (0 <= i < |ps| && AllBind(ps[..i], attrs, req, container, host) &&
      BindArg(ps[i], attrs, req, container, host) == Err(BindArgs(ps, attrs, req, container, host, acc).error))
    decreases |ps|
  {
    var b := BindArg(ps[0], attrs, req, container, host);
    if b.Err? {
      assert AllBind(ps[..0], attrs, req, container, host);
    } else {
      var acc' := Put(acc, ps[0].name, b.value);
      assert BindArgs(ps, attrs, req, container, host, acc) == BindArgs(ps[1..], attrs, req, container, host, acc');
      BindArgsFirstError(ps[1..], attrs, req, container, host, acc');
      var i :| 0 <= i < |ps[1..]| && AllBind(ps[1..][..i], attrs, req, container, host) &&
        BindArg(ps[1..][i], attrs, req, container, host) == Err(BindArgs(ps[1..], attrs, req, container, host, acc').error);
      AllBindPrefix(ps, attrs, req, container, host, i);
      assert ps[1..][i] == ps[i + 1];
    }
  }

  /** A parameter that binds, followed by a prefix of the rest that binds. */
  lemma AllBindPrefix(ps: seq<Param>, attrs: OMap<string>, req: Request, container: Option<Container>, host: Host, i: nat)
    requires i < |ps| && BindArg(ps[0], attrs, req, container, host).Ok?
    requires AllBind(ps[1..][..i], attrs, req, container, host)
    ensures AllBind(ps[..i + 1], attrs, req, container, host)
  {
    var pre := ps[..i + 1];
    forall j | 0 <= j < |pre| ensures BindArg(pre[j], attrs, req, container, host).Ok? {
      if j > 0 {
        assert pre[j] == ps[1..][..i][j - 1];
      }
    }
  }

  /** A request-typed parameter gets the request even when an attribute has its name. */
  lemma RequestWins(p: Param, attrs: OMap<string>, req: Request, container: Option<Container>, host: Host)
    requires p.typ == Some(SERVER_REQUEST)
    ensures BindArg(p, attrs, req, container, host) == Ok(ArgRequest(req))
  {
  }

  /**
   * A matched attribute is used only when it is truthy: "" and "0" fall through
   * to the default value.
   */
  lemma FalsyAttributeFallsThrough(p: Param, attrs: OMap<string>, req: Request, container: Option<Container>, host: Host, v: Value)
    requires p.typ.Some? && p.typ.value != SERVER_REQUEST && p.default == Some(v)
    requires Get(attrs, p.name) == Some("0") || Get(attrs, p.name) == Some("")
    ensures BindArg(p, attrs, req, container, host) == Ok(ArgValue(v))
  {
  }

  /** Without a container, a parameter with no attribute and no default cannot be resolved. */
  lemma NoContainerNoInjection(p: Param, attrs: OMap<string>, req: Request, host: Host)
    requires p.typ.Some? && p.typ.value != SERVER_REQUEST && p.default.None?
    requires Get(attrs, p.name).None?
    ensures BindArg(p, attrs, req, None, host) == Err(CannotResolveArgument(p.name))
  {
  }

  /** A typed parameter that is not the request, with a truthy matched attribute. */
  predicate AttributeApplies(p: Param, attrs: OMap<string>) {
    p.typ.Some? && p.typ.value != SERVER_REQUEST &&
    Get(attrs, p.name).Some? && !EmptyString(Get(attrs, p.name).value)
  }

  /** A typed parameter, not the request, with no truthy attribute and no default: only the container can supply it. */
  predicate NeedsContainer(p: Param, attrs: OMap<string>) {
    p.typ.Some? && p.typ.value != SERVER_REQUEST &&
    !(Get(attrs, p.name).Some? && !EmptyString(Get(attrs, p.name).value)) && p.default.None?
  }

  /**
   * A truthy attribute is the argument whatever the parameter's default and
   * whatever the container holds.
   */
  lemma AttributeWins(p: Param, attrs: OMap<string>, req: Request, c1: Option<Container>, c2: Option<Container>, d: Option<Value>, host: Host)
    requires AttributeApplies(p, attrs)
    ensures BindArg(p, attrs, req, c1, host) == BindArg(p.(default := d), attrs, req, c2, host)
    ensures BindArg(p, attrs, req, c1, host) == Ok(ArgText(Get(attrs, p.name).value))
  {
  }

  /** Without a truthy attribute, a default value is used and the container is never asked. */
  lemma DefaultBeforeContainer(p: Param, attrs: OMap<string>, req: Request, c1: Option<Container>, c2: Option<Container>, host: Host)
    requires p.typ.Some? && p.typ.value != SERVER_REQUEST && p.default.Some?
    requires !AttributeApplies(p, attrs)
    ensures BindArg(p, attrs, req, c1, host) == BindArg(p, attrs, req, c2, host)
    ensures BindArg(p, attrs, req, c1, host) == Ok(ArgValue(p.default.value))
  {
  }

  /**
   * The container is asked for the parameter's type when that type is an
   * existing class or interface; whatever the entry, the argument is it, and
   * a container that throws means the argument cannot be resolved.
   */
  lemma ContainerByType(p: Param, attrs: OMap<string>, req: Request, c: Container, host: Host)
    requires NeedsContainer(p, attrs)
    requires host.reflect.classExists(p.typ.value) || host.reflect.interfaceExists(p.typ.value)
    ensures BindArg(p, attrs, req, Some(c), host).Ok? <==> c.get(p.typ.value).Ok?
    ensures c.get(p.typ.value).Ok? ==> BindArg(p, attrs, req, Some(c), host) == Ok(ArgValue(c.get(p.typ.value).value))
    ensures c.get(p.typ.value).Err? ==> BindArg(p, attrs, req, Some(c), host) == Err(CannotResolveArgument(p.name))
  {
  }

  /**
   * For a type that is neither a class nor an interface the container is
   * asked for the parameter's name instead, with the same outcomes.
   */
  lemma ContainerByName(p: Param, attrs: OMap<string>, req: Request, c: Container, host: Host)
    requires NeedsContainer(p, attrs)
    requires !host.reflect.classExists(p.typ.value) && !host.reflect.interfaceExists(p.typ.value)
    ensures BindArg(p, attrs, req, Some(c), host).Ok? <==> c.get(p.name).Ok?
    ensures c.get(p.name).Ok? ==> BindArg(p, attrs, req, Some(c), host) == Ok(ArgValue(c.get(p.name).value))
    ensures c.get(p.name).Err? ==> BindArg(p, attrs, req, Some(c), host) == Err(CannotResolveArgument(p.name))
  {
  }

  // ---------------------------------------------------------------------------
  // Policies

  /**
   * `resolvePolicy` for one parameter: the request for a request-typed one;
   * else a truthy attribute of its name; else, with a container, the entry of
   * its name, or the entry of its type when that type is a class; else a
   * truthy default; otherwise it cannot be resolved.
   */
  function PolicyArg(p: Param, attrs: OMap<string>, req: Option<Request>, container: Option<Container>, route: string, host: Host): (r: Result<Arg, RouteError>)
    ensures r == Err(UnresolvedPolicyParameter(p.name, route)) <==>
      p.typ != Some(SERVER_REQUEST) && !PolicyAttribute(p, attrs) &&
      (container.None? || (!container.value.has(p.name) && !(p.typ.Some? && host.reflect.classExists(p.typ.value)))) &&
      !(p.default.Some? && Truthy(p.default.value))
    ensures r.Err? ==> r.error == UnresolvedPolicyParameter(p.name, route) || r.error.Raised?
  {
    if p.typ == Some(SERVER_REQUEST) then
      Ok(if req.Some? then ArgRequest(req.value) else ArgValue(VNull))
    else if PolicyAttribute(p, attrs) then Ok(ArgText(Get(attrs, p.name).value))
    else if container.Some? && container.value.has(p.name) then
      match container.value.get(p.name)
      case Ok(v) => Ok(ArgValue(v))
      case Err(m) => Err(Raised(m))
    else if container.Some? && p.typ.Some? && host.reflect.classExists(p.typ.value) then
      match container.value.get(p.typ.value)
      case Ok(v) => Ok(ArgValue(v))
      case Err(m) => Err(Raised(m))
    else if p.default.Some? && Truthy(p.default.value) then Ok(ArgValue(p.default.value))
    else Err(UnresolvedPolicyParameter(p.name, route))
  }

  /** `getAttribute($name)` gives a truthy value. */
  predicate PolicyAttribute(p: Param, attrs: OMap<string>) {
    Get(attrs, p.name).Some? && !EmptyString(Get(attrs, p.name).value)
  }

  /** A request-typed policy parameter gets the request (null before one is set), whatever else applies. */
  lemma PolicyRequestFirst(p: Param, attrs: OMap<string>, req: Option<Request>, container: Option<Container>, route: string, host: Host)
    requires p.typ == Some(SERVER_REQUEST)
    ensures PolicyArg(p, attrs, req, container, route, host) == Ok(if req.Some? then ArgRequest(req.value) else ArgValue(VNull))
  {
  }

  /** Next a truthy attribute, before the container and the default. */
  lemma PolicyAttributeBeforeContainer(p: Param, attrs: OMap<string>, req: Option<Request>, c1: Option<Container>, c2: Option<Container>, d: Option<Value>, route: string, host: Host)
    requires p.typ != Some(SERVER_REQUEST) && PolicyAttribute(p, attrs)
    ensures PolicyArg(p, attrs, req, c1, route, host) == PolicyArg(p.(default := d), attrs, req, c2, route, host)
    ensures PolicyArg(p, attrs, req, c1, route, host) == Ok(ArgText(Get(attrs, p.name).value))
  {
  }

  /**
   * Then a container entry of the parameter's name, before its type and its
   * default; a container that throws is reported with its message.
   */
  lemma PolicyContainerByName(p: Param, attrs: OMap<string>, req: Option<Request>, c: Container, d: Option<Value>, route: string, host: Host)
    requires p.typ != Some(SERVER_REQUEST) && !PolicyAttribute(p, attrs) && c.has(p.name)
    ensures PolicyArg(p, attrs, req, Some(c), route, host) == PolicyArg(p.(default := d), attrs, req, Some(c), route, host)
    ensures c.get(p.name).Ok? ==> PolicyArg(p, attrs, req, Some(c), route, host) == Ok(ArgValue(c.get(p.name).value))
    ensures c.get(p.name).Err? ==> PolicyArg(p, attrs, req, Some(c), route, host) == Err(Raised(c.get(p.name).error))
  {
  }

  /** Then, for a type that is an existing class, the container entry of that type, before the default. */
  lemma PolicyContainerByType(p: Param, attrs: OMap<string>, req: Option<Request>, c: Container, d: Option<Value>, route: string, host: Host)
    requires p.typ != Some(SERVER_REQUEST) && !PolicyAttribute(p, attrs) && !c.has(p.name)
    requires p.typ.Some? && host.reflect.classExists(p.typ.value)
    ensures PolicyArg(p, attrs, req, Some(c), route, host) == PolicyArg(p.(default := d), attrs, req, Some(c), route, host)
    ensures c.get(p.typ.value).Ok? ==> PolicyArg(p, attrs, req, Some(c), route, host) == Ok(ArgValue(c.get(p.typ.value).value))
    ensures c.get(p.typ.value).Err? ==> PolicyArg(p, attrs, req, Some(c), route, host) == Err(Raised(c.get(p.typ.value).error))
  {
  }

  /** Last a truthy default; a falsy one is as good as none. */
  lemma PolicyDefaultLast(p: Param, attrs: OMap<string>, req: Option<Request>, container: Option<Container>, route: string, host: Host)
    requires p.typ != Some(SERVER_REQUEST) && !PolicyAttribute(p, attrs)
    requires container.None? || (!container.value.has(p.name) && !(p.typ.Some? && host.reflect.classExists(p.typ.value)))
    requires p.default.Some?
    ensures Truthy(p.default.value) ==> PolicyArg(p, attrs, req, container, route, host) == Ok(ArgValue(p.default.value))
    ensures !Truthy(p.default.value) ==> PolicyArg(p, attrs, req, container, route, host) == Err(UnresolvedPolicyParameter(p.name, route))
  {
  }

  /** The named arguments of a policy, or the first refusal. */
  function PolicyArgs(ps: seq<Param>, attrs: OMap<string>, req: Option<Request>, container: Option<Container>, route: string, host: Host, acc: OMap<Arg>): Result<OMap<Arg>, RouteError>
    decreases |ps|
  {
    if ps == [] then Ok(acc)
    else match PolicyArg(ps[0], attrs, req, container, route, host)
      case Err(e) => Err(e)
      case Ok(a) => PolicyArgs(ps[1..], attrs, req, container, route, host, Put(acc, ps[0].name, a))
  }

  /** No policy parameter is refused. */
  predicate AllPolicyArgs(ps: seq<Param>, attrs: OMap<string>, req: Option<Request>, container: Option<Container>, route: string, host: Host) {
    forall i :: 0 <= i < |ps| ==> PolicyArg(ps[i], attrs, req, container, route, host).Ok?
  }

  /**
   * The policy's arguments are built exactly when every parameter resolves,
   * and then each parameter's name carries what its own rule chose.
   */
  lemma {:induction false} PolicyArgsOk(ps: seq<Param>, attrs: OMap<string>, req: Option<Request>, container: Option<Container>, route: string, host: Host, acc: OMap<Arg>, k: string)
    ensures PolicyArgs(ps, attrs, req, container, route, host, acc).Ok? <==> AllPolicyArgs(ps, attrs, req, container, route, host)
    ensures PolicyArgs(ps, attrs, req, container, route, host, acc).Ok? ==>
        match LastParam(ps, k)
        case Some(p) => PolicyArg(p, attrs, req, container, route, host).Ok? &&
          Get(PolicyArgs(ps, attrs, req, container, route, host, acc).value, k) == Some(PolicyArg(p, attrs, req, container, route, host).value)
        case None => Get(PolicyArgs(ps, attrs, req, container, route, host, acc).value, k) == Get(acc, k)
    decreases |ps|
  {
    if ps != [] {
      AllPolicyArgsCons(ps, attrs, req, container, route, host);
      var first := PolicyArg(ps[0], attrs, req, container, route, host);
      if first.Ok? {
        PutGet(acc, ps[0].name, first.value, k);
        PolicyArgsOk(ps[1..], attrs, req, container, route, host, Put(acc, ps[0].name, first.value), k);
      }
    }
  }

  /** Every policy parameter resolves when the first does and every later one does. */
  lemma AllPolicyArgsCons(ps: seq<Param>, attrs: OMap<string>, req: Option<Request>, container: Option<Container>, route: string, host: Host)
    requires ps != []
    ensures AllPolicyArgs(ps, attrs, req, container, route, host) <==>
      PolicyArg(ps[0], attrs, req, container, route, host).Ok? && AllPolicyArgs(ps[1..], attrs, req, container, route, host)
  {
    assert forall i :: 1 <= i < |ps| ==> ps[i] == ps[1..][i - 1];
  }

  /** Calls a policy with its parameters resolved. */
  function CallPolicy(target: PolicyTarget, attrs: OMap<string>, req: Option<Request>, container: Option<Container>, route: string, host: Host): Result<bool, RouteError>
  {
    match host.reflect.policyParams(target)
    case Err(m) => Err(Raised(m))
    case Ok(ps) =>
      match PolicyArgs(ps, attrs, req, container, route, host, [])
      case Err(e) => Err(e)
      case Ok(args) =>
        match host.code.policyCall(target, args)
        case Err(m) => Err(Raised(m))
        case Ok(v) => Ok(Truthy(v))
  }

  /**
   * A policy answers exactly when its parameters can be read, each resolves
   * and the call returns, and then the answer is the call's result cast to bool.
   */
  lemma CallPolicyResult(target: PolicyTarget, attrs: OMap<string>, req: Option<Request>, container: Option<Container>, route: string, host: Host)
    ensures CallPolicy(target, attrs, req, container, route, host).Ok? <==>
      host.reflect.policyParams(target).Ok? &&
      AllPolicyArgs(host.reflect.policyParams(target).value, attrs, req, container, route, host) &&
      PolicyArgs(host.reflect.policyParams(target).value, attrs, req, container, route, host, []).Ok? &&
      host.code.policyCall(target, PolicyArgs(host.reflect.policyParams(target).value, attrs, req, container, route, host, []).value).Ok?
    ensures CallPolicy(target, attrs, req, container, route, host).Ok? ==>
      host.reflect.policyParams(target).Ok? &&
      PolicyArgs(host.reflect.policyParams(target).value, attrs, req, container, route, host, []).Ok? &&
      host.code.policyCall(target, PolicyArgs(host.reflect.policyParams(target).value, attrs, req, container, route, host, []).value).Ok? &&
      CallPolicy(target, attrs, req, container, route, host).value == Truthy(host.code.policyCall(target, PolicyArgs(host.reflect.policyParams(target).value, attrs, req, container, route, host, []).value).value)
  {
    if host.reflect.policyParams(target).Ok? {
      PolicyArgsOk(host.reflect.policyParams(target).value, attrs, req, container, route, host, [], "");
    }
  }

  /**
   * `getPolicy`: a boolean policy is itself; a callable is called; a
   * `[class, method]` policy calls the method on the container's entry for the
   * class, or on a new instance when there is no container. Every failure
   * keeps its message.
   */
  function EvalPolicy(policy: Policy, attrs: OMap<string>, req: Option<Request>, container: Option<Container>, route: string, host: Host): (r: Result<bool, RouteError>)
    ensures policy.PolicyBool? ==> r == Ok(policy.b)
    ensures policy.PolicyCallable? ==> r == CallPolicy(TargetCallable(policy.id), attrs, req, container, route, host)
    ensures policy.PolicyClass? && container.Some? ==>
      match container.value.get(policy.cls)
      case Ok(o) => r == CallPolicy(TargetMethod(o, policy.action), attrs, req, container, route, host)
      case Err(m) => r == Err(Raised(m))
    ensures policy.PolicyClass? && container.None? ==>
      match host.code.construct(policy.cls)
      case Built(o) => r == CallPolicy(TargetMethod(o, policy.action), attrs, req, container, route, host)
      case TooFewArguments => r.Err? && r.error.Raised?
      case ConstructFailed(m) => r == Err(Raised(m))
  {
    match policy
    case PolicyBool(b) => Ok(b)
    case PolicyCallable(id) => CallPolicy(TargetCallable(id), attrs, req, container, route, host)
    case PolicyClass(cls, action) =>
      var obj: Result<Value, string> :=
        if container.Some? then container.value.get(cls)
        else match host.code.construct(cls)
          case Built(o) => Ok(o)
          case TooFewArguments => Err("Too few arguments")
          case ConstructFailed(m) => Err(m);
      match obj
      case Err(m) => Err(Raised(m))
      case Ok(o) => CallPolicy(TargetMethod(o, action), attrs, req, container, route, host)
  }

  /**
   * `setPolicy`: a class name means its `__invoke`; a `[class, method]` pair
   * (or a name) must name a class implementing the policy interface.
   */
  function ChoosePolicy(p: PolicyInput, host: Host): (r: Result<Policy, RouteError>)
    ensures p.GiveBool? ==> r == Ok(PolicyBool(p.b))
    ensures p.GiveCallable? ==> r == Ok(PolicyCallable(p.id))
    ensures p.GiveName? ==> (r.Ok? <==> host.reflect.classExists(p.s) && host.reflect.implementsPolicy(p.s))
    ensures p.GiveName? && r.Ok? ==> r.value == PolicyClass(p.s, DEFAULT_ROUTE_ACTION)
    ensures p.GivePair? ==> (r.Ok? <==> host.reflect.classExists(p.cls) && host.reflect.implementsPolicy(p.cls))
  {
    match p
    case GiveBool(b) => Ok(PolicyBool(b))
    case GiveCallable(id) => Ok(PolicyCallable(id))
    case GiveName(s) => CheckPolicyClass(s, DEFAULT_ROUTE_ACTION, host)
    case GivePair(c, m) => CheckPolicyClass(c, m, host)
  }

  function CheckPolicyClass(cls: string, action: string, host: Host): (r: Result<Policy, RouteError>)
    ensures r.Ok? <==> host.reflect.classExists(cls) && host.reflect.implementsPolicy(cls)
    ensures r.Ok? ==> r.value == PolicyClass(cls, action)
  {
    if !host.reflect.classExists(cls) then Err(NoSuchClass(cls))
    else if !host.reflect.implementsPolicy(cls) then Err(PolicyNotImplemented(cls))
    else Ok(PolicyClass(cls, action))
  }

  // ---------------------------------------------------------------------------
  // Middleware registration

  /**
   * The checks of `setMiddlewares` on one entry: anything but a string, an
   * array or a callable is refused; a pair must name an existing method; a
   * name must have `__invoke` or implement the middleware interface (asking
   * the latter of a class that does not exist throws).
   */
  function CheckMiddleware(m: Middleware, host: Host): (r: Result<(), RouteError>)
    ensures m.MwClosure? ==> r.Ok?
    ensures m.MwOther? ==> r == Err(InvalidMiddleware)
    ensures m.MwPair? ==> (r.Ok? <==> host.reflect.methodExists(m.cls, m.action))
    ensures m.MwName? ==> (r.Ok? <==> (host.reflect.methodExists(m.name, DEFAULT_ROUTE_ACTION) ||
      (host.reflect.classExists(m.name) && host.reflect.implementsMiddleware(m.name))))
  {
    match m
    case MwOther(_) => Err(InvalidMiddleware)
    case MwClosure(_) => Ok(())
    case MwPair(c, meth) => if host.reflect.methodExists(c, meth) then Ok(()) else Err(InvalidMiddleware)
    case MwName(s) =>
      if host.reflect.methodExists(s, DEFAULT_ROUTE_ACTION) then Ok(())
      else if !host.reflect.classExists(s) then Err(NoSuchClass(s))
      else if host.reflect.implementsMiddleware(s) then Ok(())
      else Err(InvalidMiddleware)
  }

  /**
   * The `setMiddlewares` loop: each valid entry is appended unless already
   * present; the first invalid entry stops the loop, leaving what was
   * appended before it.
   */
  function AddMiddlewares(current: seq<Middleware>, mws: seq<Middleware>, host: Host): (r: (seq<Middleware>, Result<(), RouteError>))
    ensures |current| <= |r.0| && r.0[..|current|] == current
    decreases |mws|
  {
    if mws == [] then (current, Ok(()))
    else match CheckMiddleware(mws[0], host)
      case Err(e) => (current, Err(e))
      case Ok(_) =>
        var next := Admit(current, mws[0]);
        var r := AddMiddlewares(next, mws[1..], host);
        assert r.0[..|current|] == r.0[..|next|][..|current|];
        r
  }

  /** One accepted entry: appended unless the list already holds it. */
  function Admit(current: seq<Middleware>, m: Middleware): seq<Middleware> {
    if m in current then current else current + [m]
  }

  /**
   * An independent description of the resulting list: the entries of a
   * sequence in the order they are first seen, each kept once.
   */
  function FirstSeen<T(==)>(s: seq<T>): seq<T>
    decreases |s|
  {
    if s == [] then []
    else
      var init := s[..|s| - 1];
      FirstSeen(init) + (if s[|s| - 1] in init then [] else [s[|s| - 1]])
  }

  /** The entries of a list, as a set. */
  function Elems<T>(s: seq<T>): set<T> {
    set x | x in s
  }

  predicate NoDuplicates<T(==)>(s: seq<T>) {
    forall i, j :: 0 <= i < j < |s| ==> s[i] != s[j]
  }

  /** Every entry passes its check. */
  predicate AllValid(mws: seq<Middleware>, host: Host) {
    forall i :: 0 <= i < |mws| ==> CheckMiddleware(mws[i], host).Ok?
  }

  /** Every entry is valid when the first is and every later one is. */
  lemma AllValidCons(mws: seq<Middleware>, host: Host)
    requires mws != []
    ensures AllValid(mws, host) <==> CheckMiddleware(mws[0], host).Ok? && AllValid(mws[1..], host)
  {
    assert forall i :: 1 <= i < |mws| ==> mws[i] == mws[1..][i - 1];
  }

  /** The list never holds an entry twice. */
  lemma {:induction false} AddMiddlewaresNoDuplicates(current: seq<Middleware>, mws: seq<Middleware>, host: Host)
    requires NoDuplicates(current)
    ensures NoDuplicates(AddMiddlewares(current, mws, host).0)
    decreases |mws|
  {
    if mws != [] && CheckMiddleware(mws[0], host).Ok? {
      var next := Admit(current, mws[0]);
      assert NoDuplicates(next) by {
        if mws[0] !in current {
          forall i, j | 0 <= i < j < |next| ensures next[i] != next[j] {
            if j == |current| {
              assert next[i] == current[i];
            }
          }
        }
      }
      AddMiddlewaresNoDuplicates(next, mws[1..], host);
    }
  }

  /** The entries after one accepted entry: the old ones and that one. */
  lemma AcceptOne(current: seq<Middleware>, m: Middleware)
    ensures Elems(Admit(current, m)) == Elems(current) + {m}
  {
  }

  lemma ElemsCons(mws: seq<Middleware>)
    requires mws != []
    ensures Elems(mws) == {mws[0]} + Elems(mws[1..])
  {
    assert mws == [mws[0]] + mws[1..];
  }

  /**
   * The call succeeds exactly when every entry is valid, and then the list
   * holds exactly the old entries and the new ones.
   */
  lemma {:induction false} AddMiddlewaresOk(current: seq<Middleware>, mws: seq<Middleware>, host: Host)
    ensures AddMiddlewares(current, mws, host).1.Ok? <==> AllValid(mws, host)
    ensures AddMiddlewares(current, mws, host).1.Ok? ==>
      Elems(AddMiddlewares(current, mws, host).0) == Elems(current) + Elems(mws)
    decreases |mws|
  {
    if mws != [] {
      AllValidCons(mws, host);
      if CheckMiddleware(mws[0], host).Ok? {
        var next := Admit(current, mws[0]);
        AcceptOne(current, mws[0]);
        ElemsCons(mws);
        AddMiddlewaresOk(next, mws[1..], host);
      }
    }
  }

  /**
   * A failed call stops at the first invalid entry: the entries before it are
   * all in the list, and nothing after it is.
   */
  lemma {:induction false} AddMiddlewaresErr(current: seq<Middleware>, mws: seq<Middleware>, host: Host)
    requires AddMiddlewares(current, mws, host).1.Err?
    ensures exists i :: (0 <= i < |mws| && AllValid(mws[..i], host) &&
      CheckMiddleware(mws[i], host) == Err(AddMiddlewares(current, mws, host).1.error) &&
      Elems(AddMiddlewares(current, mws, host).0) == Elems(current) + Elems(mws[..i]))
    decreases |mws|
  {
    if CheckMiddleware(mws[0], host).Err? {
      assert AllValid(mws[..0], host);
      assert mws[..0] == [];
    } else {
      var next := Admit(current, mws[0]);
      AcceptOne(current, mws[0]);
      AddMiddlewaresErr(next, mws[1..], host);
      var r := AddMiddlewares(current, mws, host);
      var i :| 0 <= i < |mws[1..]| && AllValid(mws[1..][..i], host) &&
        CheckMiddleware(mws[1..][i], host) == Err(r.1.error) &&
        Elems(r.0) == Elems(next) + Elems(mws[1..][..i]);
      var pre := mws[..i + 1];
      assert pre == [mws[0]] + mws[1..][..i];
      assert pre[1..] == mws[1..][..i];
      ElemsCons(pre);
      assert mws[1..][i] == mws[i + 1];
      AllValidCons(pre, host);
      assert 0 <= i + 1 < |mws| && AllValid(mws[..i + 1], host);
    }
  }

  /** Keeping the first occurrences loses no entry and invents none. */
  lemma {:induction false} FirstSeenElems<T>(s: seq<T>)
    ensures forall x :: x in FirstSeen(s) <==> x in s
    decreases |s|
  {
    if s != [] {
      var init := s[..|s| - 1];
      FirstSeenElems(init);
      assert s == init + [s[|s| - 1]];
    }
  }

  /** A list without repeats is its own first occurrences. */
  lemma {:induction false} FirstSeenDistinct<T>(s: seq<T>)
    requires NoDuplicates(s)
    ensures FirstSeen(s) == s
    decreases |s|
  {
    if s != [] {
      var init := s[..|s| - 1];
      assert NoDuplicates(init);
      FirstSeenDistinct(init);
      assert s[|s| - 1] !in init;
      assert s == init + [s[|s| - 1]];
    }
  }

  /** Appending one more valid entry to the input admits it after the others. */
  lemma {:induction false} AddMiddlewaresSnoc(current: seq<Middleware>, mws: seq<Middleware>, m: Middleware, host: Host)
    requires AllValid(mws, host) && CheckMiddleware(m, host).Ok?
    ensures AddMiddlewares(current, mws + [m], host) == (Admit(AddMiddlewares(current, mws, host).0, m), Ok(()))
    decreases |mws|
  {
    AddMiddlewaresOk(current, mws, host);
    if mws == [] {
      assert mws + [m] == [m] && [m][1..] == [];
    } else {
      AllValidCons(mws, host);
      assert (mws + [m])[0] == mws[0] && (mws + [m])[1..] == mws[1..] + [m];
      AddMiddlewaresSnoc(Admit(current, mws[0]), mws[1..], m, host);
    }
  }

  /**
   * With every entry valid, the list becomes the first occurrences of the old
   * entries followed by the new ones: order of first registration is kept and
   * a repeat is dropped.
   */
  lemma {:induction false} AddMiddlewaresFirstSeen(current: seq<Middleware>, mws: seq<Middleware>, host: Host)
    requires NoDuplicates(current) && AllValid(mws, host)
    ensures AddMiddlewares(current, mws, host) == (FirstSeen(current + mws), Ok(()))
    decreases |mws|
  {
    if mws == [] {
      assert current + mws == current;
      FirstSeenDistinct(current);
    } else {
      var init := mws[..|mws| - 1];
      var m := mws[|mws| - 1];
      assert mws == init + [m];
      assert AllValid(init, host) by {
        forall i | 0 <= i < |init| ensures CheckMiddleware(init[i], host).Ok? {
          assert init[i] == mws[i];
        }
      }
      AddMiddlewaresFirstSeen(current, init, host);
      AddMiddlewaresSnoc(current, init, m, host);
      var pre := current + init;
      assert current + mws == pre + [m];
      assert (pre + [m])[..|pre + [m]| - 1] == pre;
      assert FirstSeen(pre + [m]) == FirstSeen(pre) + (if m in pre then [] else [m]);
      FirstSeenElems(pre);
      assert Admit(FirstSeen(pre), m) == FirstSeen(pre + [m]);
    }
  }

  /** Starting from no entries, a successful call leaves the first occurrences of its input. */
  lemma AddMiddlewaresFromEmpty(mws: seq<Middleware>, host: Host)
    requires AddMiddlewares([], mws, host).1.Ok?
    ensures AddMiddlewares([], mws, host).0 == FirstSeen(mws)
  {
    AddMiddlewaresOk([], mws, host);
    AddMiddlewaresFirstSeen([], mws, host);
    assert [] + mws == mws;
  }

  /** Valid entries that are new and distinct are appended as they come. */
  lemma AddMiddlewaresFresh(current: seq<Middleware>, mws: seq<Middleware>, host: Host)
    requires NoDuplicates(current + mws) && AllValid(mws, host)
    ensures AddMiddlewares(current, mws, host) == (current + mws, Ok(()))
  {
    assert NoDuplicates(current) by {
      forall i, j | 0 <= i < j < |current| ensures current[i] != current[j] {
        assert current[i] == (current + mws)[i] && current[j] == (current + mws)[j];
      }
    }
    AddMiddlewaresFirstSeen(current, mws, host);
    FirstSeenDistinct(current + mws);
  }

  /** Registering the same valid entries twice adds nothing the second time. */
  lemma {:induction false} AddMiddlewaresAgain(current: seq<Middleware>, mws: seq<Middleware>, host: Host)
    requires forall x :: x in mws ==> x in current
    requires AllValid(mws, host)
    ensures AddMiddlewares(current, mws, host) == (current, Ok(()))
    decreases |mws|
  {
    if mws != [] {
      AllValidCons(mws, host);
      AddMiddlewaresAgain(current, mws[1..], host);
    }
  }

  // ---------------------------------------------------------------------------
  // The middleware chain

  /** What one call of `handle` returns, and where it leaves the cursor. */
  datatype Handled = Handled(result: Result<Response, RouteError>, index: nat)

  /** A middleware's own result as `handle` returns it: a plain value becomes a body. */
  function Wrap(r: MwResult): Result<Response, RouteError>
    requires !r.MwForward?
  {
    match r
    case MwResponse(resp) => Ok(resp)
    case MwBody(b) => Ok(Response(OK_STATUS, b))
    case MwFail(m) => Err(Raised(m))
  }

  /**
   * `handle($request)`: the entry under the cursor, if there is one, is taken
   * and the cursor advanced (it is never reset). A callable is called; a class
   * implementing the middleware interface is taken from the container and
   * processed; a class with `__invoke` is instantiated and called. A
   * middleware that passes the request on to the route runs `handle` again
   * from the advanced cursor. With no entry left, or an entry of no usable
   * kind, nothing is returned.
   */
  function Handle(mws: seq<Middleware>, index: nat, req: Request, container: Option<Container>, host: Host): (h: Handled)
    ensures index < |mws| ==> index < h.index <= |mws|
    ensures index >= |mws| ==> h == Handled(Err(NoResponse), index)
    decreases |mws| - index, 0
  {
    if index >= |mws| then Handled(Err(NoResponse), index)
    else
      var m := mws[index];
      var next := index + 1;
      if host.reflect.middlewareIsCallable(m) then Continue(mws, next, host.code.middleware(m, req), container, host)
      else if m.MwName? then
        if !host.reflect.classExists(m.name) then Handled(Err(NoSuchClass(m.name)), next)
        else if host.reflect.implementsMiddleware(m.name) then
          if container.None? then Handled(Err(MissingContainer(None)), next)
          else match container.value.get(m.name)
            case Err(msg) => Handled(Err(Raised(msg)), next)
            case Ok(_) => Continue(mws, next, host.code.middleware(m, req), container, host)
        else if host.reflect.methodExists(m.name, DEFAULT_ROUTE_ACTION) then
          Continue(mws, next, host.code.middleware(m, req), container, host)
        else Handled(Err(NoResponse), next)
      else Handled(Err(NoResponse), next)
  }

  /** The rest of `handle` after a middleware ran with the cursor at `next`. */
  function Continue(mws: seq<Middleware>, next: nat, r: MwResult, container: Option<Container>, host: Host): (h: Handled)
    requires 0 < next <= |mws|
    ensures next <= h.index <= |mws|
    decreases |mws| - next, 1
  {
    if r.MwForward? then
      var h := Handle(mws, next, r.request, container, host);
      h
    else Handled(Wrap(r), next)
  }

  /**
   * Handling twice: once the chain has used every entry, the next call finds
   * none and returns nothing. A route with middleware fails its second run.
   */
  lemma {:induction false} HandleExhausts(mws: seq<Middleware>, req: Request, req': Request, container: Option<Container>, host: Host)
    requires mws != []
    requires forall i :: 0 <= i < |mws| ==>
      host.reflect.middlewareIsCallable(mws[i]) && host.code.middleware(mws[i], req).MwForward? &&
      host.code.middleware(mws[i], req).request == req
    ensures Handle(mws, 0, req, container, host).index == |mws|
    ensures Handle(mws, Handle(mws, 0, req, container, host).index, req', container, host).result == Err(NoResponse)
  {
    ForwardingChain(mws, 0, req, container, host);
  }

  /** A chain whose middlewares all pass the same request on runs to its end. */
  lemma {:induction false} ForwardingChain(mws: seq<Middleware>, index: nat, req: Request, container: Option<Container>, host: Host)
    requires forall i :: 0 <= i < |mws| ==>
      host.reflect.middlewareIsCallable(mws[i]) && host.code.middleware(mws[i], req).MwForward? &&
      host.code.middleware(mws[i], req).request == req
    ensures Handle(mws, index, req, container, host) == Handled(Err(NoResponse), if index >= |mws| then index else |mws|)
    decreases |mws| - index
  {
    if index < |mws| {
      ForwardingChain(mws, index + 1, req, container, host);
    }
  }

  /** A middleware that answers ends the chain with its own response, as it is. */
  lemma AnswerStopsChain(mws: seq<Middleware>, index: nat, req: Request, container: Option<Container>, host: Host, resp: Response)
    requires index < |mws| && host.reflect.middlewareIsCallable(mws[index])
    requires host.code.middleware(mws[index], req) == MwResponse(resp)
    ensures Handle(mws, index, req, container, host) == Handled(Ok(resp), index + 1)
  {
  }

  // ---------------------------------------------------------------------------
  // Running a route

  /** The parts of a route its run reads. */
  datatype RouteState = RouteState(
    name: string,
    callback: Callback,
    controller: Option<string>,
    action: Option<string>,
    controllerNamespace: string,
    attributes: OMap<string>,
    middlewares: seq<Middleware>,
    middlewareIndex: nat,
    policy: Policy,
    container: Option<Container>)

  /** `is_callable($callback)`: closures and invokable objects always are; strings and arrays as the host says. */
  predicate IsCallable(cb: Callback, host: Host) {
    cb.Closure? || cb.Invokable? || host.reflect.callbackIsCallable(cb)
  }

  /** The class a non-callable callback names, in the route's controller namespace. */
  function ControllerClass(st: RouteState): string {
    st.controllerNamespace + "\\" + st.controller.GetOr("")
  }

  /**
   * The controller instance: a new one, or, when its constructor needs
   * arguments, the container's entry for the controller as the route names
   * it (without the namespace); with no container that is an error.
   */
  function Instantiate(st: RouteState, cls: string, host: Host): (r: Result<Value, RouteError>)
    ensures host.code.construct(cls).Built? ==> r == Ok(host.code.construct(cls).obj)
    ensures host.code.construct(cls).ConstructFailed? ==> r == Err(Raised(host.code.construct(cls).message))
    ensures host.code.construct(cls).TooFewArguments? && st.container.None? ==> r == Err(MissingContainer(st.controller))
    ensures host.code.construct(cls).TooFewArguments? && st.container.Some? ==>
      (r.Ok? <==> st.container.value.get(st.controller.GetOr("")).Ok?) &&
      (r.Ok? ==> r.value == st.container.value.get(st.controller.GetOr("")).value)
  {
    match host.code.construct(cls)
    case Built(o) => Ok(o)
    case ConstructFailed(m) => Err(Raised(m))
    case TooFewArguments =>
      if st.container.None? then Err(MissingContainer(st.controller))
      else match st.container.value.get(st.controller.GetOr(""))
        case Ok(o) => Ok(o)
        case Err(m) => Err(Raised(m))
  }

  /**
   * The handler part of `run`: a callable that is not a string is called
   * directly; anything else names a controller class and action, which must
   * exist. Either way the parameters are bound and the result made a response.
   */
  function CallHandler(st: RouteState, req: Request, host: Host): Result<Response, RouteError>
  {
    if !st.callback.Named? && IsCallable(st.callback, host) then
      match host.reflect.functionParams(st.callback)
      case Err(m) => Err(Raised(m))
      case Ok(ps) =>
        match BindArgs(ps, st.attributes, req, st.container, host, [])
        case Err(e) => Err(e)
        case Ok(args) =>
          match host.code.call(st.callback, args)
          case Err(m) => Err(Raised(m))
          case Ok(v) => ResolveResponse(v, host)
    else
      var cls := ControllerClass(st);
      var action := st.action.GetOr("");
      if !host.reflect.classExists(cls) then Err(ClassNotFound(cls))
      else match Instantiate(st, cls, host)
        case Err(e) => Err(e)
        case Ok(o) =>
          if !host.reflect.objectHasMethod(o, action) then Err(MethodNotFound(action, host.reflect.classOf(o)))
          else match BindArgs(host.reflect.methodParams(o, action), st.attributes, req, st.container, host, [])
            case Err(e) => Err(e)
            case Ok(args) =>
              match host.code.invoke(o, action, args)
              case Err(m) => Err(Raised(m))
              case Ok(v) => ResolveResponse(v, host)
  }

  /**
   * The handler's failures in the order the dispatcher meets them, and what a
   * success is made of on each path.
   */
  lemma CallHandlerCases(st: RouteState, req: Request, host: Host)
    ensures ((st.callback.Named? || !IsCallable(st.callback, host)) &&
      !host.reflect.classExists(ControllerClass(st))) ==> CallHandler(st, req, host) == Err(ClassNotFound(ControllerClass(st)))
    ensures ((st.callback.Named? || !IsCallable(st.callback, host)) && host.reflect.classExists(ControllerClass(st)) &&
      Instantiate(st, ControllerClass(st), host).Err?) ==> CallHandler(st, req, host) == Err(Instantiate(st, ControllerClass(st), host).error)
    ensures ((st.callback.Named? || !IsCallable(st.callback, host)) && host.reflect.classExists(ControllerClass(st)) &&
      Instantiate(st, ControllerClass(st), host).Ok? &&
      !host.reflect.objectHasMethod(Instantiate(st, ControllerClass(st), host).value, st.action.GetOr(""))) ==>
      CallHandler(st, req, host) == Err(MethodNotFound(st.action.GetOr(""), host.reflect.classOf(Instantiate(st, ControllerClass(st), host).value)))
    ensures (CallHandler(st, req, host).Ok? && !st.callback.Named? && IsCallable(st.callback, host)) ==>
      host.reflect.functionParams(st.callback).Ok? &&
      (var args := BindArgs(host.reflect.functionParams(st.callback).value, st.attributes, req, st.container, host, []);
       args.Ok? && host.code.call(st.callback, args.value).Ok? &&
       CallHandler(st, req, host) == ResolveResponse(host.code.call(st.callback, args.value).value, host))
    ensures (CallHandler(st, req, host).Ok? && (st.callback.Named? || !IsCallable(st.callback, host))) ==>
      host.reflect.classExists(ControllerClass(st)) && Instantiate(st, ControllerClass(st), host).Ok? &&
      (var o := Instantiate(st, ControllerClass(st), host).value;
       var args := BindArgs(host.reflect.methodParams(o, st.action.GetOr("")), st.attributes, req, st.container, host, []);
       host.reflect.objectHasMethod(o, st.action.GetOr("")) && args.Ok? &&
       host.code.invoke(o, st.action.GetOr(""), args.value).Ok? &&
       CallHandler(st, req, host) == ResolveResponse(host.code.invoke(o, st.action.GetOr(""), args.value).value, host))
  {
  }

  /** What `run` returns, and where it leaves the middleware cursor. */
  function Run(st: RouteState, req: Request, host: Host): Handled {
    match EvalPolicy(st.policy, st.attributes, Some(req), st.container, st.name, host)
    case Err(e) => Handled(Err(e), st.middlewareIndex)
    case Ok(allowed) =>
      if !allowed then Handled(Err(Unauthorized), st.middlewareIndex)
      else if st.middlewares != [] then
        var h := Handle(st.middlewares, st.middlewareIndex, req, st.container, host);
        if h.result.Err? then h
        else if IsRedirect(h.result.value) then h
        else Handled(CallHandler(st, req, host), h.index)
      else Handled(CallHandler(st, req, host), st.middlewareIndex)
  }

  /** The handler does not look at the middleware cursor. */
  lemma CallHandlerIgnoresCursor(st: RouteState, i: nat, req: Request, host: Host)
    ensures CallHandler(st.(middlewareIndex := i), req, host) == CallHandler(st, req, host)
  {
  }

  /** A denying policy stops the run before any middleware or handler: the cursor does not move. */
  lemma DeniedBeforeAnything(st: RouteState, req: Request, host: Host)
    requires EvalPolicy(st.policy, st.attributes, Some(req), st.container, st.name, host) == Ok(false)
    ensures Run(st, req, host) == Handled(Err(Unauthorized), st.middlewareIndex)
  {
  }

  /** A redirect from the middleware chain is the run's response; the handler is not called. */
  lemma RedirectShortCircuits(st: RouteState, req: Request, host: Host)
    requires EvalPolicy(st.policy, st.attributes, Some(req), st.container, st.name, host) == Ok(true)
    requires st.middlewares != []
    requires var h := Handle(st.middlewares, st.middlewareIndex, req, st.container, host);
      h.result.Ok? && IsRedirect(h.result.value)
    ensures Run(st, req, host) == Handle(st.middlewares, st.middlewareIndex, req, st.container, host)
  {
  }

  /** Any other middleware response is dropped and the handler answers. */
  lemma OtherResponsesDiscarded(st: RouteState, req: Request, host: Host)
    requires EvalPolicy(st.policy, st.attributes, Some(req), st.container, st.name, host) == Ok(true)
    requires st.middlewares != []
    requires var h := Handle(st.middlewares, st.middlewareIndex, req, st.container, host);
      h.result.Ok? && !IsRedirect(h.result.value)
    ensures Run(st, req, host).result == CallHandler(st, req, host)
  {
  }

  /** Without middleware the handler answers and the cursor stays put. */
  lemma NoMiddlewareCallsHandler(st: RouteState, req: Request, host: Host)
    requires EvalPolicy(st.policy, st.attributes, Some(req), st.container, st.name, host) == Ok(true)
    requires st.middlewares == []
    ensures Run(st, req, host) == Handled(CallHandler(st, req, host), st.middlewareIndex)
  {
  }

  /**
   * A callable string callback is never called: the constructor resolved no
   * controller for it, so `run` looks for the class named by a lone backslash.
   */
  lemma CallableStringLooksForBackslashClass(st: RouteState, req: Request, host: Host)
    requires st.callback.Named? && st.controller.None? && st.controllerNamespace == ""
    requires !host.reflect.classExists("\\")
    ensures CallHandler(st, req, host) == Err(ClassNotFound("\\"))
  {
    assert ControllerClass(st) == "\\";
  }
}
