/**
 * A route: a slash-trimmed path template, a name, a callback, and the state
 * that matching and running it leave behind. The template is compiled once,
 * when the route is built; matching fills the route's attributes from the
 * capture groups; running it decorates the request, asks the policy, walks
 * the middleware chain and calls the handler.
 */
module Routes {
  import opened Wrappers
  import opened Php
  import opened Pcre
  import opened Templates
  import opened Callbacks
  import opened Uris
  import opened Dispatch

  /** `"#^" . $resolvedPath . "$#i"`: the whole trimmed URL, case-insensitively. */
  function RoutePattern(resolvedPath: string): (r: string)
    ensures |r| == |resolvedPath| + 5 && r[0] == '#' && r[|r| - 1] == 'i'
  {
    "#^" + resolvedPath + "$#i"
  }

  /** `preg_match('#^' . $resolvedPath . '$#i', trim($url, '/'), $matches)`. */
  function Attempt(resolvedPath: string, url: string, engine: Engine): Option<seq<string>> {
    PregMatch(engine, RoutePattern(resolvedPath), TrimSlashes(url))
  }

  /** `array_shift($matches)`: the capture groups without the whole match. */
  function Shifted(groups: seq<string>): (r: seq<string>)
    ensures groups != [] ==> |r| == |groups| - 1 && forall i :: 0 <= i < |r| ==> r[i] == groups[i + 1]
    ensures groups == [] ==> r == []
  {
    if groups == [] then [] else groups[1..]
  }

  /**
   * `$this->matches[$key]`: the capture group of key `i`, or "" when the
   * pattern has fewer groups than keys (PHP reads null, which is as falsy).
   */
  function GroupAt(groups: seq<string>, i: nat): string {
    if i < |groups| then groups[i] else ""
  }

  /** The attributes array `resolve` builds: key `i` gets group `i`, a later key overwriting an earlier one. */
  function Zip(keys: seq<string>, groups: seq<string>): OMap<string>
    decreases |keys|
  {
    if keys == [] then []
    else Put(Zip(keys[..|keys| - 1], groups), keys[|keys| - 1], GroupAt(groups, |keys| - 1))
  }

  /** A key that occurs in the keys is an attribute with the group of its last occurrence. */
  lemma {:induction false} ZipGet(keys: seq<string>, groups: seq<string>, i: nat)
    requires i < |keys| && forall j :: i < j < |keys| ==> keys[j] != keys[i]
    ensures Get(Zip(keys, groups), keys[i]) == Some(GroupAt(groups, i))
    decreases |keys|
  {
    var n := |keys| - 1;
    var init := keys[..n];
    var z := Zip(init, groups);
    var v := GroupAt(groups, n);
    assert Zip(keys, groups) == Put(z, keys[n], v);
    if i == n {
      PutGet(z, keys[n], v, keys[n]);
    } else {
      var k := keys[i];
      assert keys[n] != k;
      PutGet(z, keys[n], v, k);
      assert init[i] == k;
      forall j | i < j < |init| ensures init[j] != init[i] {
        assert init[j] == keys[j];
      }
      ZipGet(init, groups, i);
    }
  }

  /** Only the keys are attributes. */
  lemma {:induction false} ZipAbsent(keys: seq<string>, groups: seq<string>, k: string)
    requires k !in keys
    ensures Get(Zip(keys, groups), k) == None
    decreases |keys|
  {
    if keys != [] {
      var n := |keys| - 1;
      assert keys == keys[..n] + [keys[n]];
      assert keys[n] != k && k !in keys[..n];
      PutGet(Zip(keys[..n], groups), keys[n], GroupAt(groups, n), k);
      ZipAbsent(keys[..n], groups, k);
    }
  }

  /** With distinct keys, key `i` is the attribute of capture group `i`. */
  lemma ZipDistinct(keys: seq<string>, groups: seq<string>, i: nat)
    requires i < |keys| && forall a, b :: 0 <= a < b < |keys| ==> keys[a] != keys[b]
    ensures Get(Zip(keys, groups), keys[i]) == Some(GroupAt(groups, i))
  {
    ZipGet(keys, groups, i);
  }

  /** The attributes are a map: each key once. */
  lemma {:induction false} ZipUnique(keys: seq<string>, groups: seq<string>)
    ensures UniqueKeys(Zip(keys, groups))
    decreases |keys|
  {
    if keys != [] {
      var n := |keys| - 1;
      ZipUnique(keys[..n], groups);
      PutUnique(Zip(keys[..n], groups), keys[n], GroupAt(groups, n));
    }
  }

  /** The `foreach` of `resolve` over the matched keys: key `i` is assigned group `i`. */
  method ZipKeys(keys: seq<string>, groups: seq<string>) returns (arr: OMap<string>)
    ensures arr == Zip(keys, groups)
  {
    arr := [];
    var k := 0;
    while k < |keys|
      invariant 0 <= k <= |keys|
      invariant arr == Zip(keys[..k], groups)
      decreases |keys| - k
    {
      assert keys[..k + 1][..k] == keys[..k];
      arr := Put(arr, keys[k], GroupAt(groups, k));
      k := k + 1;
    }
    assert keys[..k] == keys;
  }

  class Route {
    /** The template, trimmed of slashes. */
    const path: string
    const name: string
    const callback: Callback
    /** Controller and action of a callback that is not callable. */
    const controller: Option<string>
    const action: Option<string>

    /** The compiled pattern, without anchors and delimiters. */
    var resolvedPath: string
    /** Parameter name to regex, in binding order. */
    var params: Params
    /** The name of each capture group, in order. */
    var matchedKeys: seq<string>
    /** The capture groups of the last successful match. */
    var matches: seq<string>
    var attributes: OMap<string>
    var middlewares: seq<Middleware>
    /** The next middleware `handle` takes; never reset. */
    var middlewareIndex: nat
    var policy: Policy
    var request: Option<Request>
    var container: Option<Container>
    var controllerNamespace: string

    /** The bindings and the attributes are PHP arrays: no key occurs twice. */
    predicate Valid()
      reads this`params, this`attributes
    {
      UniqueKeys(params) && UniqueKeys(attributes)
    }

    /**
     * `__construct`, from the point where the callback has been checked: the
     * fields are set and the template compiled.
     */
    constructor Init(path: string, name: string, callback: Callback, target: Option<Target>)
      ensures this.path == path && this.name == name && this.callback == callback
      ensures controller == (if target.Some? then Some(target.value.controller) else None)
      ensures action == (if target.Some? then Some(target.value.action) else None)
      ensures Pass2(resolvedPath, params, matchedKeys) == Compile(path, [], [])
      ensures matches == [] && attributes == [] && middlewares == [] && middlewareIndex == 0
      ensures policy == PolicyBool(true) && request == None && container == None && controllerNamespace == ""
      ensures Valid()
    {
      this.path := path;
      this.name := name;
      this.callback := callback;
      controller := if target.Some? then Some(target.value.controller) else None;
      action := if target.Some? then Some(target.value.action) else None;
      resolvedPath := "";
      params := [];
      matchedKeys := [];
      matches := [];
      attributes := [];
      middlewares := [];
      middlewareIndex := 0;
      policy := PolicyBool(true);
      request := None;
      container := None;
      controllerNamespace := "";
      new;
      ghost var bound, keys := params, matchedKeys;
      assert bound == [] && keys == [];
      ResolvePath();
    }

    /**
     * `new Route($path, $callback, $name)`: the path is trimmed of slashes and
     * names the route unless a name is given; a callback that is not callable
     * must split into a controller and an action, or the route is refused.
     */
    static method Create(rawPath: string, callback: Callback, givenName: Option<string>, host: Host) returns (r: Result<Route, RouteError>)
      ensures IsCallable(callback, host) ==> r.Ok? && r.value.controller.None?
      ensures !IsCallable(callback, host) ==>
        var t := ResolveGivenCallback(callback, givenName.GetOr(TrimSlashes(rawPath)));
        (r.Ok? <==> t.Ok?) && (t.Err? ==> r == Err(CallbackRejected(t.error))) &&
        (t.Ok? ==> r.Ok? && r.value.controller == Some(t.value.controller) && r.value.action == Some(t.value.action))
      ensures r.Ok? ==> fresh(r.value) && r.value.path == TrimSlashes(rawPath) && r.value.callback == callback
      ensures r.Ok? ==> r.value.name == givenName.GetOr(TrimSlashes(rawPath))
      ensures r.Ok? ==> Pass2(r.value.resolvedPath, r.value.params, r.value.matchedKeys) == Compile(r.value.path, [], [])
      ensures r.Ok? ==> r.value.middlewares == [] && r.value.middlewareIndex == 0 && r.value.policy == PolicyBool(true)
      ensures r.Ok? ==> r.value.attributes == [] && r.value.container == None && r.value.controllerNamespace == ""
      ensures r.Ok? ==> r.value.Valid()
    {
      var path := TrimSlashes(rawPath);
      var name := givenName.GetOr(path);
      var target: Option<Target> := None;
      if !IsCallable(callback, host) {
        var t := ResolveGivenCallback(callback, name);
        if t.Err? {
          return Err(CallbackRejected(t.error));
        }
        target := Some(t.value);
      }
      var route := new Route.Init(path, name, callback, target);
      r := Ok(route);
    }

    /** `with($param, $regex)`: binds the regex, every `(` made non-capturing; the compiled pattern is not touched. */
    method With(param: string, regex: string)
      modifies this`params
      ensures params == Put(old(params), param, WithRegex(regex))
      ensures old(Valid()) ==> Valid()
    {
      if UniqueKeys(params) {
        PutUnique(params, param, WithRegex(regex));
      }
      params := Put(params, param, StrReplace(regex, "(", "(?:"));
    }

    /** `regexMatcher`: binds the regex of a `{name:regex}` unless the name is bound, and leaves `:name`. */
    method RegexMatcher(name: string, regex: string) returns (r: string)
      modifies this`params
      ensures r == ":" + name
      ensures params == if HasKey(old(params), name) then old(params) else Put(old(params), name, WithRegex(regex))
    {
      if !HasKey(params, name) {
        With(name, regex);
      }
      r := ":" + name;
    }

    /** `paramsMatcher`: the group for a `:name`, binding the default to an unbound name. */
    method ParamsMatcher(name: string) returns (r: string)
      modifies this`params, this`matchedKeys
      ensures Pass2(r, params, matchedKeys) == Step(Colon(name), Pass2("", old(params), old(matchedKeys)))
    {
      var bound := Get(params, name);
      if bound.Some? {
        matchedKeys := matchedKeys + [name];
        r := "(" + bound.value + ")";
        assert r == "" + r;
      } else {
        params := Put(params, name, DEFAULT_PATTERN);
        matchedKeys := matchedKeys + [name];
        r := DEFAULT_PATTERN;
        assert r == "" + r;
      }
    }

    /** `resolvePath`: both `preg_replace_callback` scans, left to right. */
    method ResolvePath()
      modifies this`params, this`matchedKeys, this`resolvedPath
      ensures Pass2(resolvedPath, params, matchedKeys) == Compile(path, old(params), old(matchedKeys))
      ensures old(Valid()) ==> Valid()
    {
      if UniqueKeys(params) {
        CompileUnique(path, params, matchedKeys);
      }
      var out := ReplaceBraced();
      resolvedPath := ReplaceColons(out);
    }

    /**
     * The first scan: each `{name:regex}` match, left to right, goes through
     * `regexMatcher` and is replaced by what it returns.
     */
    method ReplaceBraced() returns (out: string)
      modifies this`params
      ensures out == Render1(Lex1(path))
      ensures params == Bind1(Lex1(path), old(params))
    {
      out := ReplaceTokens(Lex1(path));
    }

    /** What the first scan leaves in place of one token: a match goes through `regexMatcher`, other text stays. */
    method ReplaceToken(t: Token) returns (piece: string)
      modifies this`params
      ensures piece == Piece1(t) && params == Bind1Token(t, old(params))
    {
      if t.Braced? {
        piece := RegexMatcher(t.name, t.regex);
      } else {
        piece := Text(t);
      }
    }

    /** The callbacks of the first scan over its matches, `ts`, in order. */
    method ReplaceTokens(ts: seq<Token>) returns (out: string)
      modifies this`params
      ensures out == Render1(ts)
      ensures params == Bind1(ts, old(params))
    {
      out := "";
      var k := 0;
      while k < |ts|
        invariant 0 <= k <= |ts|
        invariant out + Render1(ts[k..]) == Render1(ts)
        invariant Bind1(ts[k..], params) == Bind1(ts, old(params))
        decreases |ts| - k
      {
        ghost var before := params;
        var piece := ReplaceToken(ts[k]);
        Render1Step(ts, k, out, piece);
        Bind1Step(ts, k, before, params, old(params));
        out := out + piece;
        k := k + 1;
      }
    }

    /**
     * The second scan: each `:name` match goes through `paramsMatcher`, which
     * binds and records keys as it goes.
     */
    method ReplaceColons(s: string) returns (text: string)
      modifies this`params, this`matchedKeys
      ensures Pass2(text, params, matchedKeys) == Render2(Lex2(s), Pass2("", old(params), old(matchedKeys)))
    {
      var ts := Lex2(s);
      text := "";
      var k := 0;
      while k < |ts|
        invariant 0 <= k <= |ts|
        invariant Render2(ts[k..], Pass2(text, params, matchedKeys)) == Render2(ts, Pass2("", old(params), old(matchedKeys)))
        decreases |ts| - k
      {
        var t := ts[k];
        assert ts[k..][1..] == ts[k + 1..];
        StepPiece(t, Pass2(text, params, matchedKeys));
        var piece: string;
        if t.Colon? {
          piece := ParamsMatcher(t.name);
        } else {
          piece := Text(t);
          assert Text(t) == "" + Text(t);
        }
        text := text + piece;
        k := k + 1;
      }
    }

    /**
     * `resolve($url)`: matches the trimmed URL against the compiled pattern;
     * on success keeps the capture groups and, when the route has keys, makes
     * them its attributes. A failed match changes nothing.
     */
    method Resolve(url: string, engine: Engine) returns (ok: bool)
      modifies this`matches, this`attributes
      ensures var m := Attempt(resolvedPath, url, engine);
        ok == m.Some? &&
        matches == (if ok then Shifted(m.value) else old(matches)) &&
        attributes == (if ok && matchedKeys != [] then Zip(matchedKeys, matches) else old(attributes))
      ensures old(Valid()) ==> Valid()
    {
      var m := Attempt(resolvedPath, url, engine);
      if m.None? {
        return false;
      }
      matches := Shifted(m.value);
      if matchedKeys != [] {
        attributes := ZipKeys(matchedKeys, matches);
        ZipUnique(matchedKeys, matches);
      }
      ok := true;
    }

    /**
     * `generateUri($params, $fragment)`: each bound key in binding order must
     * be given and pass its regex, and its `:key` is replaced by the value; the
     * rest of the arguments become the query string.
     */
    method GenerateUri(args: OMap<string>, fragment: Option<string>, engine: Engine, encode: string -> string) returns (r: Result<string, UriError>)
      ensures r == Uris.GenerateUri(path, params, args, fragment, engine, encode)
      ensures Valid() ==> (r.Ok? <==> AllAccepted(params, args, engine))
    {
      if Valid() {
        GenerateUriOk(path, params, args, fragment, engine, encode);
      }
      var s := SubstituteParams(args, engine);
      if s.Err? {
        return Err(s.error);
      }
      var (p, rest) := s.value;
      var withQuery := if rest == [] then p else p + "?" + Query(rest, encode);
      var rooted := if withQuery != [] && withQuery[0] == '/' then withQuery else "/" + withQuery;
      var tail := if fragment.Some? && !EmptyString(fragment.value) then "#" + fragment.value else "";
      r := Ok(rooted + tail);
    }

    /** The loop of `generateUri` over the bound parameters. */
    method SubstituteParams(args: OMap<string>, engine: Engine) returns (r: Result<(string, OMap<string>), UriError>)
      ensures r == Substitute(params, path, args, engine)
    {
      var p := path;
      var rest := args;
      var i := 0;
      while i < |params|
        invariant 0 <= i <= |params|
        invariant Substitute(params[i..], p, rest, engine) == Substitute(params, path, args, engine)
        decreases |params| - i
      {
        var (key, regex) := params[i];
        assert params[i..][1..] == params[i + 1..];
        var value := Get(rest, key);
        if value.None? {
          return Err(MissingParameter(key));
        }
        if !Accepts(engine, regex, value.value) {
          return Err(RegexMismatch(value.value, key, regex));
        }
        p := StrReplace(p, ":" + key, value.value);
        rest := Unset(rest, key);
        i := i + 1;
      }
      r := Ok((p, rest));
    }

    /** The parts of the route its run reads, as a value. */
    function State(): RouteState
      reads this
    {
      RouteState(name, callback, controller, action, controllerNamespace, attributes,
        middlewares, middlewareIndex, policy, container)
    }

    method SetControllerNamespace(ns: string)
      modifies this`controllerNamespace
      ensures controllerNamespace == ns
    {
      controllerNamespace := ns;
    }

    method SetContainer(c: Option<Container>)
      modifies this`container
      ensures container == c
    {
      container := c;
    }

    /**
     * `setRequest($request)`: the request with each attribute of the route
     * added in order, then the route itself under `__route`.
     */
    method SetRequest(req: Request)
      modifies this`request
      ensures request == Some(Decorate(req, attributes, name))
      ensures Valid() ==>
        forall k :: Get(request.value.attributes, k) ==
          (if k == ROUTE_ATTRIBUTE then Some(ARoute(name))
           else if HasKey(attributes, k) then Some(AText(Get(attributes, k).value))
           else Get(req.attributes, k))
    {
      if Valid() {
        forall k {
          DecorateGet(req, attributes, name, k);
        }
      }
      var r := req;
      var i := 0;
      while i < |attributes|
        invariant 0 <= i <= |attributes|
        invariant AddAttributes(r, attributes[i..]) == AddAttributes(req, attributes)
        decreases |attributes| - i
      {
        assert attributes[i..][1..] == attributes[i + 1..];
        r := Request(r.verb, r.path, Put(r.attributes, attributes[i].0, AText(attributes[i].1)));
        i := i + 1;
      }
      request := Some(Request(r.verb, r.path, Put(r.attributes, ROUTE_ATTRIBUTE, ARoute(name))));
    }

    /** `setPolicy($policy)`: a refused policy leaves the old one in place. */
    method SetPolicy(p: PolicyInput, host: Host) returns (r: Result<(), RouteError>)
      modifies this`policy
      ensures ChoosePolicy(p, host).Ok? ==> r.Ok? && policy == ChoosePolicy(p, host).value
      ensures ChoosePolicy(p, host).Err? ==> r == Err(ChoosePolicy(p, host).error) && policy == old(policy)
    {
      var chosen := ChoosePolicy(p, host);
      if chosen.Err? {
        return Err(chosen.error);
      }
      policy := chosen.value;
      r := Ok(());
    }

    /** `hasMiddleware($middleware)`. */
    predicate HasMiddleware(m: Middleware)
      reads this
    {
      m in middlewares
    }

    /**
     * `setMiddlewares($middlewares)`: each valid entry not yet present is
     * appended; the first invalid one stops the loop and is reported, what was
     * appended before it staying.
     */
    method SetMiddlewares(mws: seq<Middleware>, host: Host) returns (r: Result<(), RouteError>)
      modifies this`middlewares
      ensures (middlewares, r) == AddMiddlewares(old(middlewares), mws, host)
    {
      var i := 0;
      while i < |mws|
        invariant 0 <= i <= |mws|
        invariant AddMiddlewares(middlewares, mws[i..], host) == AddMiddlewares(old(middlewares), mws, host)
        decreases |mws| - i
      {
        assert mws[i..][1..] == mws[i + 1..];
        var check := CheckMiddleware(mws[i], host);
        if check.Err? {
          return Err(check.error);
        }
        if !HasMiddleware(mws[i]) {
          middlewares := middlewares + [mws[i]];
        }
        i := i + 1;
      }
      r := Ok(());
    }

    /**
     * `handle($request)`: takes the middleware under the cursor and advances
     * the cursor; a middleware that hands the request back to the route makes
     * the route take the next one.
     */
    method Handle(req: Request, host: Host) returns (r: Result<Response, RouteError>)
      modifies this`middlewareIndex
      ensures Handled(r, middlewareIndex) == Dispatch.Handle(middlewares, old(middlewareIndex), req, container, host)
    {
      var current := req;
      while middlewareIndex < |middlewares|
        invariant Dispatch.Handle(middlewares, middlewareIndex, current, container, host) ==
          Dispatch.Handle(middlewares, old(middlewareIndex), req, container, host)
        decreases |middlewares| - middlewareIndex
      {
        var m := middlewares[middlewareIndex];
        middlewareIndex := middlewareIndex + 1;
        var out: MwResult;
        if host.reflect.middlewareIsCallable(m) {
          out := host.code.middleware(m, current);
        } else if m.MwName? {
          if !host.reflect.classExists(m.name) {
            return Err(NoSuchClass(m.name));
          } else if host.reflect.implementsMiddleware(m.name) {
            if container.None? {
              return Err(MissingContainer(None));
            }
            var entry := container.value.get(m.name);
            if entry.Err? {
              return Err(Raised(entry.error));
            }
            out := host.code.middleware(m, current);
          } else if host.reflect.methodExists(m.name, DEFAULT_ROUTE_ACTION) {
            out := host.code.middleware(m, current);
          } else {
            return Err(NoResponse);
          }
        } else {
          return Err(NoResponse);
        }
        if !out.MwForward? {
          return Wrap(out);
        }
        current := out.request;
      }
      r := Err(NoResponse);
    }

    /** `resolvePolicy`: the policy's parameters, resolved in order, then the call. */
    method ResolvePolicy(target: PolicyTarget, host: Host) returns (r: Result<bool, RouteError>)
      ensures r == CallPolicy(target, attributes, request, container, name, host)
    {
      var ps := host.reflect.policyParams(target);
      if ps.Err? {
        return Err(Raised(ps.error));
      }
      var args: OMap<Arg> := [];
      var i := 0;
      while i < |ps.value|
        invariant 0 <= i <= |ps.value|
        invariant PolicyArgs(ps.value[i..], attributes, request, container, name, host, args) ==
          PolicyArgs(ps.value, attributes, request, container, name, host, [])
        decreases |ps.value| - i
      {
        var p := ps.value[i];
        assert ps.value[i..][1..] == ps.value[i + 1..];
        var a := PolicyArg(p, attributes, request, container, name, host);
        if a.Err? {
          return Err(a.error);
        }
        args := Put(args, p.name, a.value);
        i := i + 1;
      }
      var v := host.code.policyCall(target, args);
      if v.Err? {
        return Err(Raised(v.error));
      }
      r := Ok(Truthy(v.value));
    }

    /** `getPolicy()`. */
    method GetPolicy(host: Host) returns (r: Result<bool, RouteError>)
      ensures r == EvalPolicy(policy, attributes, request, container, name, host)
    {
      match policy
      case PolicyBool(b) =>
        r := Ok(b);
      case PolicyCallable(id) =>
        r := ResolvePolicy(TargetCallable(id), host);
      case PolicyClass(cls, act) =>
        var obj: Result<Value, string>;
        if container.Some? {
          obj := container.value.get(cls);
        } else {
          match host.code.construct(cls)
          case Built(o) => obj := Ok(o);
          case TooFewArguments => obj := Err("Too few arguments");
          case ConstructFailed(m) => obj := Err(m);
        }
        if obj.Err? {
          return Err(Raised(obj.error));
        }
        r := ResolvePolicy(TargetMethod(obj.value, act), host);
    }

    /** `resolveBuildParams`: the handler's arguments by parameter name, or the first refusal. */
    method ResolveBuildParams(ps: seq<Param>, req: Request, host: Host) returns (r: Result<OMap<Arg>, RouteError>)
      ensures r == BindArgs(ps, attributes, req, container, host, [])
    {
      var args: OMap<Arg> := [];
      var i := 0;
      while i < |ps|
        invariant 0 <= i <= |ps|
        invariant BindArgs(ps[i..], attributes, req, container, host, args) == BindArgs(ps, attributes, req, container, host, [])
        decreases |ps| - i
      {
        assert ps[i..][1..] == ps[i + 1..];
        var a := BindArg(ps[i], attributes, req, container, host);
        if a.Err? {
          return Err(a.error);
        }
        args := Put(args, ps[i].name, a.value);
        i := i + 1;
      }
      r := Ok(args);
    }

    /** The handler part of `run`: the callable, or the controller's action. */
    method CallHandler(req: Request, host: Host) returns (r: Result<Response, RouteError>)
      ensures r == Dispatch.CallHandler(State(), req, host)
    {
      if !callback.Named? && IsCallable(callback, host) {
        var ps := host.reflect.functionParams(callback);
        if ps.Err? {
          return Err(Raised(ps.error));
        }
        var args := ResolveBuildParams(ps.value, req, host);
        if args.Err? {
          return Err(args.error);
        }
        var v := host.code.call(callback, args.value);
        if v.Err? {
          return Err(Raised(v.error));
        }
        return ResolveResponse(v.value, host);
      }
      var cls := controllerNamespace + "\\" + controller.GetOr("");
      var act := action.GetOr("");
      if !host.reflect.classExists(cls) {
        return Err(ClassNotFound(cls));
      }
      var obj := Instantiate(State(), cls, host);
      if obj.Err? {
        return Err(obj.error);
      }
      if !host.reflect.objectHasMethod(obj.value, act) {
        return Err(MethodNotFound(act, host.reflect.classOf(obj.value)));
      }
      var args := ResolveBuildParams(host.reflect.methodParams(obj.value, act), req, host);
      if args.Err? {
        return Err(args.error);
      }
      var v := host.code.invoke(obj.value, act, args.value);
      if v.Err? {
        return Err(Raised(v.error));
      }
      r := ResolveResponse(v.value, host);
    }

    /**
     * `run($request)`: decorates the request, asks the policy, walks the
     * middleware chain (a redirect is returned at once, any other answer
     * dropped) and calls the handler.
     */
    method Run(req: Request, host: Host) returns (r: Result<Response, RouteError>)
      modifies this`request, this`middlewareIndex
      ensures request == Some(Decorate(req, attributes, name))
      ensures Handled(r, middlewareIndex) == Dispatch.Run(old(State()), request.value, host)
    {
      ghost var st := State();
      SetRequest(req);
      var decorated := request.value;
      var allowed := GetPolicy(host);
      assert allowed == EvalPolicy(st.policy, st.attributes, Some(decorated), st.container, st.name, host);
      if allowed.Err? {
        return Err(allowed.error);
      }
      if !allowed.value {
        return Err(Unauthorized);
      }
      if middlewares != [] {
        var answer := Handle(decorated, host);
        assert Handled(answer, middlewareIndex) == Dispatch.Handle(st.middlewares, st.middlewareIndex, decorated, st.container, host);
        if answer.Err? || IsRedirect(answer.value) {
          return answer;
        }
      }
      CallHandlerIgnoresCursor(st, middlewareIndex, decorated, host);
      r := CallHandler(decorated, host);
    }
  }
}
