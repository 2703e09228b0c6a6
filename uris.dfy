/**
 * URI generation from a route: each bound parameter, in binding order, must
 * be given and must contain a match of its regex; its `:name` text in the
 * stored template is replaced by the value; what is left of the arguments
 * becomes the query string.
 */
module Uris {
  import opened Wrappers
  import opened Php
  import opened Pcre
  import opened Templates

  datatype UriError =
    | MissingParameter(key: string)
    | RegexMismatch(value: string, key: string, regex: string)

  /** The check `preg_match('/' . $regex . '/', $value)` succeeds. */
  predicate Accepts(engine: Engine, regex: string, value: string) {
    PregMatch(engine, "/" + regex + "/", value).Some?
  }

  /**
   * The loop over the bound parameters: the path after substitution and the
   * arguments not consumed, or the first refusal.
   */
  function Substitute(params: Params, path: string, args: OMap<string>, engine: Engine): (r: Result<(string, OMap<string>), UriError>)
    decreases |params|
  {
    if params == [] then Ok((path, args))
    else
      var (key, regex) := params[0];
      match Get(args, key)
      case None => Err(MissingParameter(key))
      case Some(value) =>
        if !Accepts(engine, regex, value) then Err(RegexMismatch(value, key, regex))
        else Substitute(params[1..], StrReplace(path, ":" + key, value), Unset(args, key), engine)
  }

  /** `http_build_query`: `key=value` pairs joined by `&`, each part encoded by `encode`. */
  function Query(args: OMap<string>, encode: string -> string): string
    decreases |args|
  {
    if args == [] then ""
    else encode(args[0].0) + "=" + encode(args[0].1) + (if |args| == 1 then "" else "&" + Query(args[1..], encode))
  }

  /** The path with a '/' put in front unless it already starts with one. */
  function Rooted(path: string): (r: string)
    ensures r != [] && r[0] == '/'
    ensures r == path || r == "/" + path
  {
    if path != [] && path[0] == '/' then path else "/" + path
  }

  /**
   * `generateUri($params, $fragment)` on a route whose stored (trimmed)
   * template is `path` and whose bindings are `params`.
   */
  function GenerateUri(path: string, params: Params, args: OMap<string>, fragment: Option<string>, engine: Engine, encode: string -> string): (r: Result<string, UriError>)
    ensures r.Ok? ==> r.value != [] && r.value[0] == '/'
    ensures r.Ok? && fragment.Some? && !EmptyString(fragment.value) ==>
      |r.value| > |fragment.value| && r.value[|r.value| - |fragment.value| - 1..] == "#" + fragment.value
    ensures Substitute(params, path, args, engine).Err? ==> r == Err(Substitute(params, path, args, engine).error)
    ensures Substitute(params, path, args, engine).Ok? ==>
      var (p, rest) := Substitute(params, path, args, engine).value;
      r == Ok(Rooted(if rest == [] then p else p + "?" + Query(rest, encode)) +
        (if fragment.Some? && !EmptyString(fragment.value) then "#" + fragment.value else ""))
  {
    match Substitute(params, path, args, engine)
    case Err(e) => Err(e)
    case Ok((p, rest)) =>
      var withQuery := if rest == [] then p else p + "?" + Query(rest, encode);
      var tail := if fragment.Some? && !EmptyString(fragment.value) then "#" + fragment.value else "";
      var r := Rooted(withQuery) + tail;
      assert tail != "" ==> r[|r| - |tail|..] == tail;
      Ok(r)
  }

  /** The key is given and its value contains a match of its regex. */
  predicate Passes(engine: Engine, args: OMap<string>, key: string, regex: string) {
    Get(args, key).Some? && Accepts(engine, regex, Get(args, key).value)
  }

  /** Every bound key passes. */
  predicate AllAccepted(params: Params, args: OMap<string>, engine: Engine) {
    forall i :: 0 <= i < |params| ==> Passes(engine, args, params[i].0, params[i].1)
  }

  /** The exception raised for a key that does not pass. */
  function Refusal(args: OMap<string>, key: string, regex: string): UriError {
    match Get(args, key)
    case None => MissingParameter(key)
    case Some(v) => RegexMismatch(v, key, regex)
  }

  lemma AllAcceptedCons(params: Params, args: OMap<string>, engine: Engine)
    requires params != []
    ensures AllAccepted(params, args, engine) <==>
      Passes(engine, args, params[0].0, params[0].1) && AllAccepted(params[1..], args, engine)
  {
    assert forall k :: 0 <= k < |params[1..]| ==> params[1..][k] == params[k + 1];
    if Passes(engine, args, params[0].0, params[0].1) && AllAccepted(params[1..], args, engine) {
      forall i | 0 <= i < |params| ensures Passes(engine, args, params[i].0, params[i].1) {
        if i > 0 {
          assert params[i] == params[1..][i - 1];
        }
      }
    }
  }

  /** Consuming the first key does not change how the other (distinct) keys fare. */
  lemma AcceptedTail(params: Params, args: OMap<string>, engine: Engine)
    requires params != [] && UniqueKeys(params)
    ensures AllAccepted(params[1..], Unset(args, params[0].0), engine) <==> AllAccepted(params[1..], args, engine)
    ensures forall k :: 0 <= k < |params[1..]| ==>
      Get(Unset(args, params[0].0), params[1..][k].0) == Get(args, params[1..][k].0)
  {
    var args' := Unset(args, params[0].0);
    forall k | 0 <= k < |params[1..]|
      ensures Get(args', params[1..][k].0) == Get(args, params[1..][k].0)
    {
      assert params[1..][k] == params[k + 1];
      assert params[0].0 != params[k + 1].0;
      UnsetGet(args, params[0].0, params[1..][k].0);
    }
  }

  lemma UniqueTail(params: Params)
    requires params != [] && UniqueKeys(params)
    ensures UniqueKeys(params[1..])
  {
    assert forall k :: 0 <= k < |params[1..]| ==> params[1..][k] == params[k + 1];
  }

  /**
   * With distinct keys, substitution succeeds exactly when every bound key is
   * given with an accepted value.
   */
  lemma {:induction false} SubstituteOk(params: Params, path: string, args: OMap<string>, engine: Engine)
    requires UniqueKeys(params)
    ensures Substitute(params, path, args, engine).Ok? <==> AllAccepted(params, args, engine)
    decreases |params|
  {
    if params != [] {
      var (key, regex) := params[0];
      AllAcceptedCons(params, args, engine);
      if Passes(engine, args, key, regex) {
        UniqueTail(params);
        AcceptedTail(params, args, engine);
        SubstituteOk(params[1..], StrReplace(path, ":" + key, Get(args, key).value), Unset(args, key), engine);
      }
    }
  }

  /**
   * A failed substitution reports the first key, in binding order, that is
   * missing or whose value the regex refuses.
   */
  lemma {:induction false} SubstituteFirstRefusal(params: Params, path: string, args: OMap<string>, engine: Engine)
    requires UniqueKeys(params) && Substitute(params, path, args, engine).Err?
    ensures exists i :: (0 <= i < |params| && AllAccepted(params[..i], args, engine) &&
      !Passes(engine, args, params[i].0, params[i].1) &&
      Substitute(params, path, args, engine).error == Refusal(args, params[i].0, params[i].1))
    decreases |params|
  {
    var (key, regex) := params[0];
    if !Passes(engine, args, key, regex) {
      assert AllAccepted(params[..0], args, engine);
    } else {
      var args' := Unset(args, key);
      var path' := StrReplace(path, ":" + key, Get(args, key).value);
      UniqueTail(params);
      SubstituteFirstRefusal(params[1..], path', args', engine);
      var i :| 0 <= i < |params[1..]| && AllAccepted(params[1..][..i], args', engine) &&
        !Passes(engine, args', params[1..][i].0, params[1..][i].1) &&
        Substitute(params[1..], path', args', engine).error == Refusal(args', params[1..][i].0, params[1..][i].1);
      assert params[1..][i] == params[i + 1];
      RefusalAfterFirst(params, args, engine, i);
    }
  }

  /** A refusal of the rest, once the first key is consumed, is one of the whole list. */
  lemma RefusalAfterFirst(params: Params, args: OMap<string>, engine: Engine, i: nat)
    requires UniqueKeys(params) && i + 1 < |params| && Passes(engine, args, params[0].0, params[0].1)
    requires AllAccepted(params[1..][..i], Unset(args, params[0].0), engine)
    requires !Passes(engine, Unset(args, params[0].0), params[i + 1].0, params[i + 1].1)
    ensures AllAccepted(params[..i + 1], args, engine)
    ensures !Passes(engine, args, params[i + 1].0, params[i + 1].1)
    ensures Refusal(Unset(args, params[0].0), params[i + 1].0, params[i + 1].1) == Refusal(args, params[i + 1].0, params[i + 1].1)
  {
    assert params[0].0 != params[i + 1].0;
    UnsetGet(args, params[0].0, params[i + 1].0);
    var pre := params[..i + 1];
    assert pre[1..] == params[1..][..i];
    assert UniqueKeys(pre);
    AcceptedTail(pre, args, engine);
    AllAcceptedCons(pre, args, engine);
  }

  /**
   * The arguments left for the query string are those whose key is not bound,
   * with their values.
   */
  lemma {:induction false} SubstituteLeftover(params: Params, path: string, args: OMap<string>, engine: Engine, k: string)
    requires Substitute(params, path, args, engine).Ok?
    ensures Get(Substitute(params, path, args, engine).value.1, k) == if HasKey(params, k) then None else Get(args, k)
    decreases |params|
  {
    if params != [] {
      var (key, regex) := params[0];
      var value := Get(args, key).value;
      var args' := Unset(args, key);
      SubstituteLeftover(params[1..], StrReplace(path, ":" + key, value), args', engine, k);
      assert Keys(params) == [key] + Keys(params[1..]);
      if k != key {
        UnsetGet(args, key, k);
      } else if HasKey(params[1..], k) {
      } else {
        assert !HasKey(args', key);
      }
    }
  }

  /**
   * A key still bound to the default pattern `([^/]+)` can never be generated:
   * the call fails, either because the key is missing or because the pattern
   * does not compile between `/` delimiters.
   */
  lemma DefaultBoundNeverGenerates(path: string, params: Params, args: OMap<string>, fragment: Option<string>, engine: Engine, encode: string -> string, i: nat)
    requires UniqueKeys(params) && i < |params| && params[i].1 == DEFAULT_PATTERN
    ensures GenerateUri(path, params, args, fragment, engine, encode).Err?
  {
    SubstituteOk(params, path, args, engine);
    assert !Passes(engine, args, params[i].0, params[i].1) by {
      if Get(args, params[i].0).Some? {
      DefaultPatternNeverMatches(engine, Get(args, params[i].0).value);
      assert DEFAULT_PATTERN == "([^/]+)";
      assert "/" + DEFAULT_PATTERN + "/" == "/([^/]+)/";
      }
    }
  }

  /** A bound key whose `:key` text does not occur leaves the path as it is. */
  lemma SubstituteSkipsAbsent(path: string, key: string, value: string)
    requires !Occurs(":" + key, path)
    ensures StrReplace(path, ":" + key, value) == path
  {
    StrReplaceAbsent(path, ":" + key, value);
  }

  /** Generation succeeds exactly when every bound key passes its check. */
  lemma GenerateUriOk(path: string, params: Params, args: OMap<string>, fragment: Option<string>, engine: Engine, encode: string -> string)
    requires UniqueKeys(params)
    ensures GenerateUri(path, params, args, fragment, engine, encode).Ok? <==> AllAccepted(params, args, engine)
  {
    SubstituteOk(params, path, args, engine);
  }

  /**
   * A template with one parameter: the accepted value takes the parameter's
   * place, the rest of the template is kept, and no query string is added.
   */
  lemma SingleParameter(a: string, key: string, b: string, regex: string, value: string, engine: Engine, encode: string -> string)
    requires ':' !in a && !Occurs(":" + key, b)
    requires Accepts(engine, regex, value)
    ensures GenerateUri(a + ":" + key + b, [(key, regex)], [(key, value)], None, engine, encode) == Ok(Rooted(a + value + b))
  {
    var args := [(key, value)];
    assert Get(args, key) == Some(value);
    assert Unset(args, key) == Unset(args[1..], key) == [];
    assert a + ":" + key + b == a + (":" + key) + b;
    StrReplaceSplice(a, ":" + key, value, b);
    StrReplaceAbsent(b, ":" + key, value);
    assert Substitute([(key, regex)], a + ":" + key + b, args, engine) == Ok((a + value + b, []));
    assert Rooted(a + value + b) + "" == Rooted(a + value + b);
  }
}
