/**
 * Route callbacks and the split of a non-callable callback into the
 * controller class and the action method the route will call.
 */
module Callbacks {
  import opened Wrappers
  import opened Php

  /** The method called when a callback names only a class. */
  const DEFAULT_ROUTE_ACTION := "__invoke"

  /** A key of a PHP array. */
  datatype ArrayKey = IntKey(i: int) | StrKey(s: string)

  /**
   * What a route may be given as its callback: a string, an array of strings,
   * a closure, or an object with `__invoke` (the last two are told apart only
   * by an identity the host understands).
   */
  datatype Callback =
    | Named(s: string)
    | Listed(entries: seq<(ArrayKey, string)>)
    | Closure(id: nat)
    | Invokable(id: nat)

  /** The controller class and action method a non-callable callback names. */
  datatype Target = Target(controller: string, action: string)

  /** The three refusals of `resolveGivenArrayCallback`, each naming the route. */
  datatype CallbackError =
    | EmptyCallback(route: string)
    | EmptyController(route: string)
    | EmptyAction(route: string)

  /** `$array[$key] ?? null` for an array whose values are strings. */
  function Lookup(entries: seq<(ArrayKey, string)>, key: ArrayKey): (r: Option<string>)
    ensures r.Some? <==> exists i :: 0 <= i < |entries| && entries[i].0 == key
    ensures r.Some? ==> exists i :: 0 <= i < |entries| && entries[i] == (key, r.value)
    decreases |entries|
  {
    if entries == [] then None
    else if entries[0].0 == key then Some(entries[0].1)
    else
      var r := Lookup(entries[1..], key);
      assert forall i :: 1 <= i < |entries| ==> entries[i] == entries[1..][i - 1];
      r
  }

  /** `empty()` of a value that may be missing (null). */
  predicate EmptyOr(v: Option<string>) {
    v.None? || EmptyString(v.value)
  }

  /** Checks the two parts, controller first. */
  function CheckParts(controller: Option<string>, action: Option<string>, route: string): (r: Result<Target, CallbackError>)
    ensures r.Ok? <==> !EmptyOr(controller) && !EmptyOr(action)
    ensures r.Ok? ==> r.value == Target(controller.value, action.value)
    ensures r.Err? ==> r.error == if EmptyOr(controller) then EmptyController(route) else EmptyAction(route)
  {
    if EmptyOr(controller) then Err(EmptyController(route))
    else if EmptyOr(action) then Err(EmptyAction(route))
    else Ok(Target(controller.value, action.value))
  }

  /**
   * `resolveGivenArrayCallback`, for the string and array callbacks that are
   * not callable. An empty callback is refused; an array takes its controller
   * from key `controller`, else index 0, and its action from key `action`,
   * else index 1; a string is split at its first `@`, or failing that its first
   * `#`, and with neither names a class whose `__invoke` is the action. An
   * empty (or missing) controller, then an empty action, is refused.
   */
  function ResolveGivenCallback(cb: Callback, route: string): (r: Result<Target, CallbackError>)
    requires cb.Named? || cb.Listed?
    ensures r.Err? && r.error == EmptyCallback(route) <==>
      (if cb.Named? then EmptyString(cb.s) else cb.entries == [])
    ensures r.Ok? ==> !EmptyString(r.value.controller) && !EmptyString(r.value.action)
  {
    match cb
    case Named(s) =>
      if EmptyString(s) then Err(EmptyCallback(route))
      else if '@' in s || '#' in s then
        var sep := if '@' in s then '@' else '#';
        var (c, a) := SplitFirst(s, sep);
        CheckParts(Some(c), Some(a), route)
      else CheckParts(Some(s), Some(DEFAULT_ROUTE_ACTION), route)
    case Listed(es) =>
      if es == [] then Err(EmptyCallback(route))
      else
        var c := match Lookup(es, StrKey("controller")) case Some(v) => Some(v) case None => Lookup(es, IntKey(0));
        var a := match Lookup(es, StrKey("action")) case Some(v) => Some(v) case None => Lookup(es, IntKey(1));
        CheckParts(c, a, route)
  }

  /** `"Controller@action"` splits at the first `@`, whatever the action contains. */
  lemma AtSplit(controller: string, action: string, route: string)
    requires '@' !in controller
    ensures ResolveGivenCallback(Named(controller + "@" + action), route) ==
      CheckParts(Some(controller), Some(action), route)
  {
    var s := controller + "@" + action;
    assert s[|controller|] == '@';
    assert s != "" && s != "0";
    SplitFirstUnique(controller, action, '@');
  }

  /** `"Controller#action"` splits at the first `#` when there is no `@` at all. */
  lemma HashSplit(controller: string, action: string, route: string)
    requires '@' !in controller && '@' !in action && '#' !in controller
    ensures ResolveGivenCallback(Named(controller + "#" + action), route) ==
      CheckParts(Some(controller), Some(action), route)
  {
    var s := controller + "#" + action;
    assert s[|controller|] == '#';
    assert s != "" && s != "0";
    assert '@' !in s by {
      assert forall i :: 0 <= i < |s| ==> s[i] == (if i < |controller| then controller[i] else if i == |controller| then '#' else action[i - |controller| - 1]);
    }
    SplitFirstUnique(controller, action, '#');
  }

  /** A class name alone is called through `__invoke`. */
  lemma ClassOnly(controller: string, route: string)
    requires '@' !in controller && '#' !in controller && !EmptyString(controller)
    ensures ResolveGivenCallback(Named(controller), route) == Ok(Target(controller, DEFAULT_ROUTE_ACTION))
  {
  }

  /** `['controller' => c, 'action' => a]` names `c` and `a`, in either order. */
  lemma KeyedArray(controller: string, action: string, route: string)
    requires !EmptyString(controller) && !EmptyString(action)
    ensures ResolveGivenCallback(Listed([(StrKey("controller"), controller), (StrKey("action"), action)]), route) ==
      Ok(Target(controller, action))
    ensures ResolveGivenCallback(Listed([(StrKey("action"), action), (StrKey("controller"), controller)]), route) ==
      Ok(Target(controller, action))
  {
  }

  /** `[c, a]`, a list, names `c` and `a`; a list of one names no action. */
  lemma ListArray(controller: string, action: string, route: string)
    requires !EmptyString(controller)
    ensures ResolveGivenCallback(Listed([(IntKey(0), controller), (IntKey(1), action)]), route) ==
      CheckParts(Some(controller), Some(action), route)
    ensures ResolveGivenCallback(Listed([(IntKey(0), controller)]), route) == Err(EmptyAction(route))
  {
    var two := [(IntKey(0), controller), (IntKey(1), action)];
    assert Lookup(two, StrKey("controller")) == None && Lookup(two, StrKey("action")) == None;
    assert two[1..] == [(IntKey(1), action)];
    assert Lookup(two, IntKey(0)) == Some(controller) && Lookup(two, IntKey(1)) == Some(action);
    var one := [(IntKey(0), controller)];
    assert Lookup(one, StrKey("action")) == None;
    assert Lookup(one, IntKey(1)) == None;
  }
}
