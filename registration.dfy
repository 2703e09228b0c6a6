/**
 * How the router registers routes: the group prefixes and the middleware
 * stack that `group`, `middleware` and `middlewares` push around the
 * callback they are given, and what `add` checks before storing a route.
 * The callback is foreign code that calls the router back; it is modelled
 * as a program of router commands, and its effect on the router's scope is
 * interpreted here.
 */
module Registration {
  import opened Wrappers
  import opened Php
  import opened Callbacks
  import opened Uris
  import opened Dispatch
  import opened Namespaces

  /** The exceptions the router raises or passes on. */
  datatype RouterError =
    | RouteFailed(error: RouteError)
    | MiddlewareTypeError
    | InvalidNamespace
    | NoMatchingRoute
    | UnauthorizeRoute
    | UnknownRoute(name: string)
    | UriFailed(reason: UriError)

  /** What a registration callback does with the router it is given. */
  datatype Cmd =
    | Add(verb: string, path: string, callback: Callback, name: Option<string>)
    | Group(prefix: string, body: seq<Cmd>)
    | Use(middleware: Middleware, body: seq<Cmd>)
    | UseAll(middlewares: seq<Middleware>, body: seq<Cmd>)
    | SetNamespace(ns: string)

  /** The router state that registration reads and changes, routes aside. */
  datatype Scope = Scope(groups: seq<string>, middlewares: seq<Middleware>, namespace: Option<string>)

  // ---------------------------------------------------------------------------
  // Group prefixes

  /** `groupUriToString()`: the prefixes concatenated, outermost first. */
  function GroupUriToString(groups: seq<string>): string
    decreases |groups|
  {
    if groups == [] then "" else GroupUriToString(groups[..|groups| - 1]) + groups[|groups| - 1]
  }

  /** Prefixes nest: the string of a stack is the strings of its parts, joined. */
  lemma {:induction false} GroupUriAppend(a: seq<string>, b: seq<string>)
    ensures GroupUriToString(a + b) == GroupUriToString(a) + GroupUriToString(b)
    decreases |b|
  {
    if b == [] {
      assert a + b == a;
    } else {
      var b' := b[..|b| - 1];
      assert (a + b)[..|a + b| - 1] == a + b';
      GroupUriAppend(a, b');
    }
  }

  // ---------------------------------------------------------------------------
  // Removing the last occurrence

  /** The position `array_search` finds in the reversed list: the last occurrence. */
  function LastIndex<T(==)>(s: seq<T>, x: T): (r: Option<nat>)
    ensures r.None? <==> x !in s
    ensures r.Some? ==> r.value < |s| && s[r.value] == x && forall j :: r.value < j < |s| ==> s[j] != x
    decreases |s|
  {
    if s == [] then None
    else if s[|s| - 1] == x then Some(|s| - 1)
    else
      var r := LastIndex(s[..|s| - 1], x);
      assert x in s ==> x in s[..|s| - 1] by {
        if x in s {
          var k :| 0 <= k < |s| && s[k] == x;
          assert s[..|s| - 1][k] == x;
        }
      }
      r
  }

  /** `array_reverse`, `array_search`, `unset`, `array_reverse`: the last occurrence goes. */
  function RemoveLast<T(==)>(s: seq<T>, x: T): seq<T> {
    match LastIndex(s, x)
    case None => s
    case Some(i) => s[..i] + s[i + 1..]
  }

  /** What the removal leaves: the list without its last `x`, or the list unchanged when there is none. */
  lemma RemoveLastSpec<T>(s: seq<T>, x: T)
    ensures x !in s ==> RemoveLast(s, x) == s
    ensures x in s ==> exists i :: (0 <= i < |s| && s[i] == x && x !in s[i + 1..] && RemoveLast(s, x) == s[..i] + s[i + 1..])
  {
    if x in s {
      var i := LastIndex(s, x).value;
      var rest := s[i + 1..];
      assert forall k :: 0 <= k < |rest| ==> rest[k] == s[i + 1 + k];
    }
  }

  /** When position `i` holds the last `x`, that is the one removed. */
  lemma RemoveLastAt<T>(s: seq<T>, x: T, i: nat)
    requires i < |s| && s[i] == x && forall j :: i < j < |s| ==> s[j] != x
    ensures RemoveLast(s, x) == s[..i] + s[i + 1..]
  {
    assert LastIndex(s, x).value == i;
  }

  /** Removing what was just appended gives the list back. */
  lemma RemoveLastAppended<T>(s: seq<T>, x: T)
    ensures RemoveLast(s + [x], x) == s
  {
    RemoveLastAt(s + [x], x, |s|);
    assert (s + [x])[..|s|] == s;
  }

  // ---------------------------------------------------------------------------
  // The middleware stack

  /** `hasMiddleware`: only names and arrays are looked up; anything else is never found. */
  predicate HasMiddleware(s: seq<Middleware>, m: Middleware) {
    (m.MwName? || m.MwPair?) && m in s
  }

  /** The push of `middleware`: the entry is appended unless it is found. */
  function Push(s: seq<Middleware>, m: Middleware): seq<Middleware> {
    if HasMiddleware(s, m) then s else s + [m]
  }

  /** A stack whose name or array entry is pushed once holds it just once more, however often it is pushed. */
  lemma PushTwice(s: seq<Middleware>, m: Middleware)
    requires m.MwName? || m.MwPair?
    ensures Push(Push(s, m), m) == Push(s, m)
    ensures m in Push(s, m)
  {
  }

  /** A callable is pushed again each time, whatever the stack holds. */
  lemma PushCallable(s: seq<Middleware>, m: Middleware)
    requires m.MwClosure?
    ensures Push(s, m) == s + [m]
  {
  }

  /** Popping an entry that the push added gives the stack back. */
  lemma PushPopFresh(s: seq<Middleware>, m: Middleware)
    requires !HasMiddleware(s, m)
    ensures RemoveLast(Push(s, m), m) == s
  {
    RemoveLastAppended(s, m);
  }

  /**
   * Popping an entry that was already on the stack takes away the earlier
   * copy: the stack comes back one entry shorter, without its last `m`.
   */
  lemma PushPopPresent(s: seq<Middleware>, m: Middleware)
    requires HasMiddleware(s, m)
    ensures RemoveLast(Push(s, m), m) == RemoveLast(s, m)
    ensures |RemoveLast(Push(s, m), m)| == |s| - 1
  {
    RemoveLastSpec(s, m);
  }

  /** The first loop of `middlewares`: each entry pushed in turn; one that is not a middleware type stops it. */
  function PushAll(s: seq<Middleware>, ms: seq<Middleware>): (r: (seq<Middleware>, Result<(), RouterError>))
    decreases |ms|
  {
    if ms == [] then (s, Ok(()))
    else if ms[0].MwOther? then (s, Err(MiddlewareTypeError))
    else PushAll(Push(s, ms[0]), ms[1..])
  }

  /** The second loop of `middlewares`: each entry popped in turn. */
  function RemoveAll(s: seq<Middleware>, ms: seq<Middleware>): seq<Middleware>
    decreases |ms|
  {
    if ms == [] then s else RemoveAll(RemoveLast(s, ms[0]), ms[1..])
  }

  /** Entries the stack does not hold yet, none twice and none of the wrong type. */
  predicate FreshEntries(s: seq<Middleware>, ms: seq<Middleware>) {
    NoDuplicates(ms) && forall i :: 0 <= i < |ms| ==> !ms[i].MwOther? && ms[i] !in s
  }

  lemma FreshEntriesTail(s: seq<Middleware>, ms: seq<Middleware>)
    requires ms != [] && FreshEntries(s, ms)
    ensures FreshEntries(s + [ms[0]], ms[1..])
  {
    forall i | 0 <= i < |ms[1..]| ensures ms[1..][i] !in s + [ms[0]] {
      assert ms[1..][i] == ms[i + 1];
    }
    forall i, j | 0 <= i < j < |ms[1..]| ensures ms[1..][i] != ms[1..][j] {
      assert ms[1..][i] == ms[i + 1] && ms[1..][j] == ms[j + 1];
    }
  }

  /** Fresh entries are all appended, in order. */
  lemma {:induction false} PushAllFresh(s: seq<Middleware>, ms: seq<Middleware>)
    requires FreshEntries(s, ms)
    ensures PushAll(s, ms) == (s + ms, Ok(()))
    decreases |ms|
  {
    if ms != [] {
      assert !ms[0].MwOther? && ms[0] !in s;
      assert Push(s, ms[0]) == s + [ms[0]];
      FreshEntriesTail(s, ms);
      PushAllFresh(s + [ms[0]], ms[1..]);
      assert s + [ms[0]] + ms[1..] == s + ms;
    } else {
      assert s + ms == s;
    }
  }

  /** Popping fresh entries after pushing them gives the stack back. */
  lemma {:induction false} RemoveAllFresh(s: seq<Middleware>, ms: seq<Middleware>)
    requires FreshEntries(s, ms)
    ensures RemoveAll(s + ms, ms) == s
    decreases |ms|
  {
    if ms != [] {
      RemoveFirstFresh(s, ms);
      FreshEntriesDrop(s, ms);
      RemoveAllFresh(s, ms[1..]);
    }
  }

  /** Popping the first pushed entry takes it out of the middle: it occurs nowhere after. */
  lemma RemoveFirstFresh(s: seq<Middleware>, ms: seq<Middleware>)
    requires ms != [] && FreshEntries(s, ms)
    ensures RemoveLast(s + ms, ms[0]) == s + ms[1..]
  {
    var t := s + ms;
    forall j | |s| < j < |t| ensures t[j] != ms[0] {
      assert t[j] == ms[j - |s|];
    }
    RemoveLastAt(t, ms[0], |s|);
    assert t[..|s|] + t[|s| + 1..] == s + ms[1..];
  }

  /** The entries after the first are fresh too. */
  lemma FreshEntriesDrop(s: seq<Middleware>, ms: seq<Middleware>)
    requires ms != [] && FreshEntries(s, ms)
    ensures FreshEntries(s, ms[1..])
  {
    forall i, j | 0 <= i < j < |ms[1..]| ensures ms[1..][i] != ms[1..][j] {
      assert ms[1..][i] == ms[i + 1] && ms[1..][j] == ms[j + 1];
    }
    forall i | 0 <= i < |ms[1..]| ensures ms[1..][i] !in s {
      assert ms[1..][i] == ms[i + 1];
    }
  }


  // ---------------------------------------------------------------------------
  // Adding a route

  /** The name of a new route: the given one, else a string callback, else the path as written (no group prefix). */
  function RouteName(callback: Callback, path: string, given: Option<string>): string {
    given.GetOr(if callback.Named? then callback.s else path)
  }

  /**
   * What `add` reports: the route's constructor refuses a callback that is
   * not callable and does not split into a controller and an action, with
   * the split's error; otherwise the first middleware of the stack that fails
   * its check is reported with that check's error.
   */
  function AddCheck(path: string, callback: Callback, given: Option<string>, sc: Scope, host: Host): (r: Result<(), RouterError>)
    ensures r.Err? <==>
      (!IsCallable(callback, host) && ResolveGivenCallback(callback, RouteName(callback, path, given)).Err?) ||
      !AllValid(sc.middlewares, host)
    ensures !IsCallable(callback, host) && ResolveGivenCallback(callback, RouteName(callback, path, given)).Err? ==>
      r == Err(RouteFailed(CallbackRejected(ResolveGivenCallback(callback, RouteName(callback, path, given)).error)))
    ensures ((IsCallable(callback, host) || ResolveGivenCallback(callback, RouteName(callback, path, given)).Ok?) &&
      !AllValid(sc.middlewares, host)) ==>
      exists i :: 0 <= i < |sc.middlewares| && AllValid(sc.middlewares[..i], host) &&
        CheckMiddleware(sc.middlewares[i], host).Err? &&
        r == Err(RouteFailed(CheckMiddleware(sc.middlewares[i], host).error))
  {
    var name := RouteName(callback, path, given);
    AddMiddlewaresOk([], sc.middlewares, host);
    if !IsCallable(callback, host) && ResolveGivenCallback(callback, name).Err? then
      Err(RouteFailed(CallbackRejected(ResolveGivenCallback(callback, name).error)))
    else if AddMiddlewares([], sc.middlewares, host).1.Err? then
      AddMiddlewaresErr([], sc.middlewares, host);
      Err(RouteFailed(AddMiddlewares([], sc.middlewares, host).1.error))
    else
      Ok(())
  }

  // ---------------------------------------------------------------------------
  // Running a registration callback

  /**
   * One command's effect on the scope and its outcome. No command restores
   * anything when the callback it runs throws: the prefix or the entries it
   * pushed stay.
   */
  function Exec(c: Cmd, sc: Scope, host: Host): (Scope, Result<(), RouterError>)
    decreases c
  {
    match c
    case Add(verb, path, callback, name) => (sc, AddCheck(path, callback, name, sc, host))
    case Group(prefix, body) =>
      var (inner, r) := ExecAll(body, sc.(groups := sc.groups + [prefix]), host);
      if r.Err? then (inner, r) else (inner.(groups := RemoveLast(inner.groups, prefix)), Ok(()))
    case Use(m, body) =>
      if m.MwOther? then (sc, Err(MiddlewareTypeError))
      else
        var (inner, r) := ExecAll(body, sc.(middlewares := Push(sc.middlewares, m)), host);
        if r.Err? then (inner, r) else (inner.(middlewares := RemoveLast(inner.middlewares, m)), Ok(()))
    case UseAll(ms, body) =>
      var (pushed, p) := PushAll(sc.middlewares, ms);
      if p.Err? then (sc.(middlewares := pushed), p)
      else
        var (inner, r) := ExecAll(body, sc.(middlewares := pushed), host);
        if r.Err? then (inner, r) else (inner.(middlewares := RemoveAll(inner.middlewares, ms)), Ok(()))
    case SetNamespace(ns) =>
      if ValidNamespace(ns) then (sc.(namespace := Some(ns)), Ok(())) else (sc, Err(InvalidNamespace))
  }

  /** The commands in order; the first failure stops the callback. */
  function ExecAll(cs: seq<Cmd>, sc: Scope, host: Host): (Scope, Result<(), RouterError>)
    decreases cs
  {
    if cs == [] then (sc, Ok(()))
    else
      var (next, r) := Exec(cs[0], sc, host);
      if r.Err? then (next, r) else ExecAll(cs[1..], next, host)
  }

  /** The namespace a new route is given: the router's, when it is set and truthy. */
  function Inherited(ns: Option<string>): string {
    if ns.Some? && !EmptyString(ns.value) then ns.value else ""
  }

  /**
   * A route that `add` stores, as a value: its method, its template with the
   * group prefixes in front and slashes trimmed, its name, its callback, and
   * what it takes from the scope.
   */
  datatype Entry = Entry(verb: string, path: string, name: string, callback: Callback,
    middlewares: seq<Middleware>, namespace: string)

  /** The route `add($verb, $path, $callback, $name)` stores in scope `sc`. */
  function EntryOf(verb: string, path: string, callback: Callback, given: Option<string>, sc: Scope): Entry {
    Entry(verb, TrimSlashes(GroupUriToString(sc.groups) + path), RouteName(callback, path, given), callback,
      FirstSeen(sc.middlewares), Inherited(sc.namespace))
  }

  /** The routes one command stores, in the order it adds them. */
  function Added(c: Cmd, sc: Scope, host: Host): seq<Entry>
    decreases c
  {
    match c
    case Add(verb, path, callback, name) =>
      if AddCheck(path, callback, name, sc, host).Ok? then [EntryOf(verb, path, callback, name, sc)] else []
    case Group(prefix, body) => AddedAll(body, sc.(groups := sc.groups + [prefix]), host)
    case Use(m, body) =>
      if m.MwOther? then [] else AddedAll(body, sc.(middlewares := Push(sc.middlewares, m)), host)
    case UseAll(ms, body) =>
      var (pushed, p) := PushAll(sc.middlewares, ms);
      if p.Err? then [] else AddedAll(body, sc.(middlewares := pushed), host)
    case SetNamespace(_) => []
  }

  /** The routes a callback stores, up to the command that throws. */
  function AddedAll(cs: seq<Cmd>, sc: Scope, host: Host): seq<Entry>
    decreases cs
  {
    if cs == [] then []
    else
      var (next, r) := Exec(cs[0], sc, host);
      Added(cs[0], sc, host) + (if r.Err? then [] else AddedAll(cs[1..], next, host))
  }

  /** One command of a callback, then the rest unless it threw. */
  lemma ExecAllStep(cs: seq<Cmd>, sc: Scope, host: Host)
    requires cs != []
    ensures ExecAll(cs, sc, host) ==
      if Exec(cs[0], sc, host).1.Err? then Exec(cs[0], sc, host) else ExecAll(cs[1..], Exec(cs[0], sc, host).0, host)
    ensures AddedAll(cs, sc, host) == Added(cs[0], sc, host) +
      if Exec(cs[0], sc, host).1.Err? then [] else AddedAll(cs[1..], Exec(cs[0], sc, host).0, host)
  {
  }

  /** `a` is a prefix of `b`. */
  predicate Extends<T(==)>(b: seq<T>, a: seq<T>) {
    |a| <= |b| && b[..|a|] == a
  }

  /**
   * Group prefixes are a stack: a command that succeeds leaves the stack as
   * it found it, and one that fails leaves at least what it found beneath.
   */
  lemma {:induction false} ExecGroups(c: Cmd, sc: Scope, host: Host)
    ensures Extends(Exec(c, sc, host).0.groups, sc.groups)
    ensures Exec(c, sc, host).1.Ok? ==> Exec(c, sc, host).0.groups == sc.groups
    decreases c
  {
    match c
    case Add(_, _, _, _) =>
    case Group(prefix, body) =>
      var entered := sc.(groups := sc.groups + [prefix]);
      ExecAllGroups(body, entered, host);
      var inner := ExecAll(body, entered, host).0;
      assert inner.groups[..|sc.groups|] == inner.groups[..|entered.groups|][..|sc.groups|];
      if ExecAll(body, entered, host).1.Ok? {
        RemoveLastAppended(sc.groups, prefix);
      }
    case Use(m, body) =>
      if !m.MwOther? {
        ExecAllGroups(body, sc.(middlewares := Push(sc.middlewares, m)), host);
      }
    case UseAll(ms, body) =>
      var (pushed, p) := PushAll(sc.middlewares, ms);
      if p.Ok? {
        ExecAllGroups(body, sc.(middlewares := pushed), host);
      }
    case SetNamespace(_) =>
  }

  lemma {:induction false} ExecAllGroups(cs: seq<Cmd>, sc: Scope, host: Host)
    ensures Extends(ExecAll(cs, sc, host).0.groups, sc.groups)
    ensures ExecAll(cs, sc, host).1.Ok? ==> ExecAll(cs, sc, host).0.groups == sc.groups
    decreases cs
  {
    if cs != [] {
      ExecGroups(cs[0], sc, host);
      var (next, r) := Exec(cs[0], sc, host);
      if r.Ok? {
        ExecAllGroups(cs[1..], next, host);
      }
    }
  }

  /** A callback that throws inside a group leaves the group's prefix on every route added after it. */
  lemma GroupFailureKeepsPrefix(prefix: string, body: seq<Cmd>, sc: Scope, host: Host)
    requires Exec(Group(prefix, body), sc, host).1.Err?
    ensures Extends(Exec(Group(prefix, body), sc, host).0.groups, sc.groups + [prefix])
  {
    ExecAllGroups(body, sc.(groups := sc.groups + [prefix]), host);
  }

  /**
   * A command is fresh for a stack when every entry it pushes is not on the
   * stack at that point (a callable never is).
   */
  predicate FreshCmd(c: Cmd, s: seq<Middleware>)
    decreases c
  {
    match c
    case Add(_, _, _, _) => true
    case Group(_, body) => FreshCmds(body, s)
    case Use(m, body) => !HasMiddleware(s, m) && FreshCmds(body, Push(s, m))
    case UseAll(ms, body) => FreshEntries(s, ms) && FreshCmds(body, s + ms)
    case SetNamespace(_) => true
  }

  predicate FreshCmds(cs: seq<Cmd>, s: seq<Middleware>)
    decreases cs
  {
    forall i :: 0 <= i < |cs| ==> FreshCmd(cs[i], s)
  }

  /** A fresh command that succeeds leaves the middleware stack as it found it. */
  lemma {:induction false} ExecMiddlewares(c: Cmd, sc: Scope, host: Host)
    requires FreshCmd(c, sc.middlewares)
    ensures Exec(c, sc, host).1.Ok? ==> Exec(c, sc, host).0.middlewares == sc.middlewares
    decreases c
  {
    match c
    case Add(_, _, _, _) =>
    case Group(prefix, body) =>
      ExecAllMiddlewares(body, sc.(groups := sc.groups + [prefix]), host);
    case Use(m, body) =>
      if !m.MwOther? {
        ExecAllMiddlewares(body, sc.(middlewares := Push(sc.middlewares, m)), host);
        PushPopFresh(sc.middlewares, m);
      }
    case UseAll(ms, body) =>
      PushAllFresh(sc.middlewares, ms);
      ExecAllMiddlewares(body, sc.(middlewares := sc.middlewares + ms), host);
      RemoveAllFresh(sc.middlewares, ms);
    case SetNamespace(_) =>
  }

  lemma {:induction false} ExecAllMiddlewares(cs: seq<Cmd>, sc: Scope, host: Host)
    requires FreshCmds(cs, sc.middlewares)
    ensures ExecAll(cs, sc, host).1.Ok? ==> ExecAll(cs, sc, host).0.middlewares == sc.middlewares
    decreases cs
  {
    if cs != [] {
      assert FreshCmd(cs[0], sc.middlewares);
      ExecMiddlewares(cs[0], sc, host);
      var (next, r) := Exec(cs[0], sc, host);
      if r.Ok? {
        assert FreshCmds(cs[1..], next.middlewares) by {
          forall i | 0 <= i < |cs[1..]| ensures FreshCmd(cs[1..][i], next.middlewares) {
            assert cs[1..][i] == cs[i + 1];
          }
        }
        ExecAllMiddlewares(cs[1..], next, host);
      }
    }
  }

  /**
   * Entering `middleware($m, ...)` again for a name already pushed by an
   * enclosing call pushes nothing but still pops: the enclosing callback
   * goes on without `m`, and the routes it adds afterwards do not get it.
   */
  lemma ReentryDropsMiddleware(s: seq<Middleware>, m: Middleware, groups: seq<string>, ns: Option<string>, host: Host)
    requires m.MwName? || m.MwPair?
    requires m !in s
    ensures Exec(Use(m, []), Scope(groups, s + [m], ns), host) == (Scope(groups, s, ns), Ok(()))
  {
    RemoveLastAppended(s, m);
  }
}
