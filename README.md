# A verified model of a PHP HTTP router

The router stores routes by HTTP method and by name, and registers them
inside nested `group` and `middleware` scopes.

Compiling a route's path template takes two left-to-right
`preg_replace_callback` passes:

- Pass 1 turns each `{name:regex}` into `:name` and binds the regex.
- Pass 2 turns each `:name` into one capture group. It records the name
  as a matched key and binds the default pattern `([^/]+)` to any name
  still unbound.

Matching a request:

- The router tries the routes of the request's method in registration
  order, and the first whose anchored, case-insensitive pattern accepts
  the slash-trimmed path wins.
- That route zips its matched keys with the capture groups into its
  attributes, copies them onto the request and asks its policy.
- Then it runs its middleware chain. The chain's cursor is never reset,
  and only a redirect from the chain ends the run early.
- Last, it calls the handler. The handler is a callable, or a controller
  class and action split out of a `"Controller@action"` string or an
  array. Its parameters are bound by a fixed precedence: request, truthy
  attribute, default, container.

`generateUri` goes the other way:

- Each bound parameter, in binding order, must be given a value that its
  regex accepts.
- The value replaces `:name` in the stored template.
- Unused arguments become the query string, a leading `/` is forced, and
  a non-empty fragment is appended.

The Dafny modules follow the two source classes and the logic they rely
on:

| module | file | what it holds |
|---|---|---|
| `Wrappers` | wrappers.dfy | `Option`, `Result` |
| `Php` | php.dfy | `trim`, `str_replace`, `explode`, `empty()`, and ordered PHP arrays as sequences of pairs |
| `Pcre` | pcre.dfy | `preg_match`'s delimiter split, modelled exactly; the matching itself is an abstract `Engine` |
| `Templates` | templates.dfy | both compilation passes as scanners and folds, with their properties |
| `Uris` | uris.dfy | `generateUri` |
| `Callbacks` | callbacks.dfy | `resolveGivenArrayCallback` |
| `Namespaces` | namespace.dfy | the controller-namespace pattern as an automaton |
| `Dispatch` | dispatch.dfy | parameter binding, policies, middleware checks, the `handle` chain, `run` and `resolveResponse` |
| `Registration` | registration.dfy | group and middleware stacks; a registration callback as a program of router commands |
| `Routes` | route.dfy | class `Route` |
| `Routers` | router.dfy | class `Router` |

The classes update their fields in place. Each method is proved against
the value-level function that specifies it.

## Model

| member | source | states |
|---|---|---|
| Php.TrimSlashes | src/Routes/Route.php:142 | `trim($s, '/')` leaves no slash at either end and never lengthens the string |
| Php.TrimSlashesIdempotent | src/Routes/Route.php:215 | trimming an already trimmed path or URL changes nothing |
| Php.SplitFirst | src/Routes/Route.php:166-169 | `explode($sep, $s, 2)` splits at the first separator: the left part has no separator and the parts rejoin to the input |
| Php.PutGet | src/Routes/Route.php:198 | writing an array key overwrites it (or appends it) and leaves every other key's value unchanged |
| Php.UnsetGet | src/Routes/Route.php:254 | after `unset($params[$key])`, every other key reads as before |
| Php.StrReplaceSplice | src/Routes/Route.php:253 | `str_replace` keeps the text before the first occurrence, replaces that occurrence, and goes on after it |
| Pcre.DelimitSplits | src/Routes/Route.php:247 | a pattern that `preg_match` accepts is its delimiter, a body, the delimiter again and valid modifiers |
| Pcre.SlashFreeReachesEngine | src/Routes/Route.php:247 | `'/' . $regex . '/'` hands a slash-free regex to the engine unchanged |
| Pcre.DefaultPatternNeverMatches | src/Routes/Route.php:247 | the default binding `([^/]+)` wrapped in `/` never compiles, whatever the subject |
| Templates.BraceAtSound | src/Routes/Route.php:204 | what pass 1's anchored scan finds is a valid `{name:regex}` spelled at that point |
| Templates.BraceAtComplete | src/Routes/Route.php:204 | every valid `{name:regex}` (name `[a-z]+`, regex free of braces) is found whole |
| Templates.Lex1 | src/Routes/Route.php:204 | pass 1's scan yields only single characters and valid `{name:regex}` tokens |
| Templates.Lex1RoundTrip | src/Routes/Route.php:204 | pass 1's tokens spell the template back: nothing is lost or reordered |
| Templates.WithRegex | src/Routes/Route.php:196-200 | a regex stored by `with` opens no capture group, and is empty or starts with `?` exactly when its input is or does |
| Templates.Bind1Get | src/Routes/Route.php:286-292 | after pass 1, a name keeps an existing binding, or else it is bound to the first regex the template gives it, or else it stays unbound |
| Templates.Bind1NoCapture | src/Routes/Route.php:196-200 | pass 1 binds only regexes that open no capture group |
| Templates.Bind1Unique | src/Routes/Route.php:286-292 | pass 1 keeps the names of the bindings distinct |
| Templates.Render1NoBrace | src/Routes/Route.php:204 | a template without `{` passes pass 1 unchanged |
| Templates.Bind1NoBrace | src/Routes/Route.php:204 | a template without `{` binds nothing in pass 1 |
| Templates.ColonAt | src/Routes/Route.php:205 | pass 2's anchored scan finds `:` followed by the longest run of word characters |
| Templates.Lex2 | src/Routes/Route.php:205 | pass 2's scan yields only single characters and valid `:name` tokens |
| Templates.Lex2RoundTrip | src/Routes/Route.php:205 | pass 2's tokens spell pass 1's output back |
| Templates.Lex2OfCanonical | src/Routes/Route.php:205 | scanning the text of a canonical token sequence gives that sequence back, so the scanner is a left inverse of spelling |
| Templates.Lex2Canonical | src/Routes/Route.php:205 | every scan result is canonical |
| Templates.Step | src/Routes/Route.php:269-278 | one `paramsMatcher` call only appends to the compiled text |
| Templates.StepPiece | src/Routes/Route.php:269-278 | what a call appends does not depend on the text compiled before it |
| Templates.Render2Keys | src/Routes/Route.php:269-278 | the matched keys are the `:name` tokens, in template order, one per token |
| Templates.Render2Get | src/Routes/Route.php:269-278 | pass 2 keeps every binding and binds the default to each unbound name it meets, and to no other name |
| Templates.Render2Unique | src/Routes/Route.php:269-278 | pass 2 keeps the names of the bindings distinct |
| Templates.Render2Extends | src/Routes/Route.php:205 | pass 2 only ever appends to the compiled text |
| Templates.Render2Aligned | src/Routes/Route.php:269-278 | with no `(` of the template's own, neutral bound regexes, and repeated names bound beforehand, each key opens exactly one capture group |
| Templates.CompileSpec | src/Routes/Route.php:202-208 | after compilation, the keys are the template's parameters in order; each name is bound to its first `{name:regex}`, else to the default if it occurs as `:name`, else not at all |
| Templates.CompileBindsKeys | src/Routes/Route.php:202-208 | every matched key has a binding |
| Templates.CompileUnique | src/Routes/Route.php:202-208 | compiling from bindings with distinct names leaves them distinct |
| Templates.CompileAligned | src/Routes/Route.php:202-229 | for a template with no `(` outside its braces (a `{name:regex}` may contain groups, which pass 1 makes non-capturing), no regex starting with `?`, and a regex for every repeated name, there is one capture group per key, so key i reads group i + 1 |
| Templates.RepeatedDefaultMisaligns | src/Routes/Route.php:271-277 | an unbound name used twice is compiled to `([^/]+)` and then `(([^/]+))`: two keys but three capture groups |
| Uris.Rooted | src/Routes/Route.php:260 | the generated path always starts with `/`, and only one is added |
| Uris.GenerateUri | src/Routes/Route.php:239-261 | a refused or missing parameter is the result; otherwise the URI is the substituted path with `/` forced, then `?` and the query of the unused arguments when there are any, then `#fragment` when a non-empty fragment is given |
| Uris.SubstituteOk | src/Routes/Route.php:243-255 | with distinct keys, substitution succeeds exactly when every bound key is given a value its regex accepts |
| Uris.SubstituteFirstRefusal | src/Routes/Route.php:243-251 | a failure names the first key, in binding order, that is missing or refused, with that key's own error |
| Uris.SubstituteLeftover | src/Routes/Route.php:253-258 | the query-string arguments are exactly the given ones whose key is not bound |
| Uris.SubstituteSkipsAbsent | src/Routes/Route.php:253 | only `:key` text is replaced, so a key whose `:key` does not occur leaves the path as it is |
| Uris.GenerateUriOk | src/Routes/Route.php:239-261 | generation succeeds exactly when every bound key passes |
| Uris.DefaultBoundNeverGenerates | src/Routes/Route.php:247-275 | a key bound to the default pattern can never be generated: it is either missing or its check fails to compile |
| Uris.SingleParameter | src/Routes/Route.php:239-261 | a template with one `:key` and a value its regex accepts generates the template with the value in place of `:key`, rooted, and with no query |
| Callbacks.Lookup | src/Routes/Route.php:163-164 | `$array[$key] ?? null` finds a value exactly when the key is present, and the value is that key's |
| Callbacks.CheckParts | src/Routes/Route.php:174-190 | the parts are accepted exactly when both are non-empty; the controller is checked first |
| Callbacks.ResolveGivenCallback | src/Routes/Route.php:160-178 | an empty callback is refused first; a split that succeeds names a non-empty controller and action |
| Callbacks.AtSplit | src/Routes/Route.php:165-169 | `"C@a"` splits at the first `@`, whatever the action holds |
| Callbacks.HashSplit | src/Routes/Route.php:165-169 | `"C#a"` splits at the first `#` when there is no `@` |
| Callbacks.ClassOnly | src/Routes/Route.php:170-172 | a string naming only a class gets the action `__invoke` |
| Callbacks.KeyedArray | src/Routes/Route.php:162-164 | `controller` and `action` keys are used in either order |
| Callbacks.ListArray | src/Routes/Route.php:162-176 | a list `[c, a]` names `c` and `a`; a one-element list is refused for its empty action |
| Namespaces.RunLang | src/Router.php:257 | the automaton accepts from each state exactly the rest its grammar allows |
| Namespaces.RecognizedIsPattern | src/Router.php:257 | the recogniser accepts exactly the strings of `([A-Z][a-z]+(\\)?)+[a-z]+` |
| Namespaces.ForeignCharRejected | src/Router.php:257-259 | a namespace with any character other than a letter or a backslash (a final newline aside) is refused |
| Namespaces.ValidIsTruthy | src/Router.php:327-329 | a valid namespace is never PHP-falsy, so new routes inherit it |
| Dispatch.ResolveResponse | src/Routes/Route.php:722-737 | a response is kept as is; an array becomes a JSON body and a plain string a text body, with the default status; an object is accepted only when callable or `Stringable`; an int, a bool or null is a `TypeError`, since the parameter type refuses it |
| Dispatch.CallableTextIsCalled | src/Routes/Route.php:731-733 | a returned string that names a function is called, and its result becomes the body |
| Dispatch.Decorate | src/Routes/Route.php:645-653 | decorating a request keeps its method and path |
| Dispatch.AddAttributesGet | src/Routes/Route.php:645-651 | after `withAttribute` for each pair, a route attribute overrides a request attribute of the same name |
| Dispatch.DecorateGet | src/Routes/Route.php:645-653 | the decorated request carries the route under `__route`, every matched attribute, and its other attributes unchanged |
| Dispatch.BindArg | src/Routes/Route.php:436-483 | a parameter is refused for having no type exactly when it has none; any other refusal says the argument cannot be resolved |
| Dispatch.AttributeWins | src/Routes/Route.php:455-456 | a truthy attribute is bound whatever the default and the container |
| Dispatch.DefaultBeforeContainer | src/Routes/Route.php:457-459 | without a truthy attribute, a default is used and the container is never asked |
| Dispatch.ContainerByType | src/Routes/Route.php:460-477 | with no attribute or default, a class or interface type is fetched from the container by its type name; a failing fetch cannot resolve the argument |
| Dispatch.ContainerByName | src/Routes/Route.php:468-477 | any other type is fetched from the container by the parameter name; a failing fetch cannot resolve the argument |
| Dispatch.BindArgsOk | src/Routes/Route.php:430-485 | arguments are built exactly when every parameter binds, and each name then carries its own rule's choice |
| Dispatch.BindArgsFirstError | src/Routes/Route.php:430-485 | a failure is the first refused parameter's, and all before it bind |
| Dispatch.RequestWins | src/Routes/Route.php:452-453 | a request-typed parameter gets the live request even if an attribute has its name |
| Dispatch.FalsyAttributeFallsThrough | src/Routes/Route.php:455-459 | attributes `""` and `"0"` are skipped, and the default value is used |
| Dispatch.NoContainerNoInjection | src/Routes/Route.php:460-480 | with no attribute, no default and no container, the argument cannot be resolved |
| Dispatch.PolicyArg | src/Routes/Route.php:591-607 | the unresolved-policy-parameter error is raised exactly when no request, attribute, container entry or truthy default applies; any other failure is a container error passed on |
| Dispatch.PolicyRequestFirst | src/Routes/Route.php:592-593 | a request-typed policy parameter gets the request, before anything else is tried |
| Dispatch.PolicyAttributeBeforeContainer | src/Routes/Route.php:594-595 | then a truthy attribute, whatever the container and the default |
| Dispatch.PolicyContainerByName | src/Routes/Route.php:596-597 | then the container entry of the parameter name, whatever the default |
| Dispatch.PolicyContainerByType | src/Routes/Route.php:598-599 | then the container entry of an existing class type |
| Dispatch.PolicyDefaultLast | src/Routes/Route.php:600-606 | last a truthy default; a falsy default is refused with the route named |
| Dispatch.PolicyArgsOk | src/Routes/Route.php:590-608 | the policy arguments are built exactly when every parameter resolves, and each name then carries its own rule's choice |
| Dispatch.CallPolicyResult | src/Routes/Route.php:581-613 | a policy answers exactly when its parameters resolve and its call returns; the answer is the call's result cast to bool |
| Dispatch.EvalPolicy | src/Routes/Route.php:559-579 | a boolean policy is itself; a callable is called; a `[class, method]` policy calls the method on the container's entry for the class, or on a new instance without a container; a failing fetch or constructor raises its message |
| Dispatch.ChoosePolicy | src/Routes/Route.php:619-630 | a bool or callable is stored as given; a class name or `[class, method]` pair is accepted exactly when the class exists and implements the policy interface, a bare class meaning `__invoke` |
| Dispatch.CheckMiddleware | src/Routes/Route.php:674-684 | callables pass; other kinds are refused; a pair needs its method; a name needs `__invoke` or the middleware interface |
| Dispatch.AddMiddlewares | src/Routes/Route.php:668-691 | the list only grows: the old entries stay, in order, at its front |
| Dispatch.AddMiddlewaresOk | src/Routes/Route.php:668-691 | the call succeeds exactly when every entry is valid, and the list then holds exactly the old and the new entries |
| Dispatch.AddMiddlewaresErr | src/Routes/Route.php:674-684 | a failure is the first invalid entry's, and only the entries before it were added |
| Dispatch.AddMiddlewaresNoDuplicates | src/Routes/Route.php:685-687 | the list never holds an entry twice |
| Dispatch.AddMiddlewaresAgain | src/Routes/Route.php:685-687 | registering entries already present changes nothing |
| Dispatch.FirstSeenElems | src/Routes/Route.php:685-687 | dropping later duplicates keeps every entry |
| Dispatch.FirstSeenDistinct | src/Routes/Route.php:685-687 | a list without duplicates is its own first-seen list |
| Dispatch.AddMiddlewaresSnoc | src/Routes/Route.php:673-688 | adding one more valid entry admits it after the earlier ones |
| Dispatch.AddMiddlewaresFirstSeen | src/Routes/Route.php:668-691 | valid entries leave the list as the old entries followed by the new ones, each kept at its first occurrence only |
| Dispatch.AddMiddlewaresFromEmpty | src/Routes/Route.php:668-691 | a new route given the stack gets it with later duplicates dropped |
| Dispatch.AddMiddlewaresFresh | src/Routes/Route.php:668-691 | entries that are all new are appended in order |
| Dispatch.Handle | src/Routes/Route.php:351-374 | the cursor only moves forward, by at least one while entries remain, and never past the end; with no entry left nothing is returned |
| Dispatch.HandleExhausts | src/Routes/Route.php:353-355 | because the cursor is never reset, a chain that forwarded every entry leaves a second run with no middleware to answer |
| Dispatch.ForwardingChain | src/Routes/Route.php:351-374 | a chain whose entries all pass the request on runs to its end with no response |
| Dispatch.AnswerStopsChain | src/Routes/Route.php:356-359 | a middleware's own response ends the chain as is, one step further on |
| Dispatch.Instantiate | src/Routes/Route.php:327-332 | a constructor that succeeds gives the controller; one that fails raises its message; too few constructor arguments fall back to the container entry of the controller name, or fail for a missing container |
| Dispatch.CallHandlerCases | src/Routes/Route.php:312-345 | a missing controller class, a failed instantiation and a missing method fail in that order with their own errors; a success is the bound call of the callable or of the method, made a response |
| Dispatch.DeniedBeforeAnything | src/Routes/Route.php:302-304 | a denying policy fails the run before any middleware moves the cursor |
| Dispatch.RedirectShortCircuits | src/Routes/Route.php:305-310 | a 301, 302 or 308 response from the chain is the run's result; the handler is not called |
| Dispatch.OtherResponsesDiscarded | src/Routes/Route.php:305-311 | any other middleware response is dropped and the handler answers |
| Dispatch.NoMiddlewareCallsHandler | src/Routes/Route.php:305-311 | without middleware the handler answers and the cursor stays put |
| Dispatch.CallableStringLooksForBackslashClass | src/Routes/Route.php:314-324 | a callable string callback is never called: `run` looks for the class `"\"` |
| Registration.GroupUriAppend | src/Router.php:365-368 | the string of nested prefixes is the concatenation of the outer and inner ones |
| Registration.LastIndex | src/Router.php:341-351 | `array_search` on the reversed list finds the last occurrence, and none exactly when the entry is absent |
| Registration.RemoveLastSpec | src/Router.php:341-363 | removal takes out only the last occurrence; an absent entry is a no-op |
| Registration.RemoveLastAppended | src/Router.php:155-162 | popping what was just pushed restores the stack |
| Registration.PushTwice | src/Router.php:370-376 | a name or array is pushed at most once, however often it is given |
| Registration.PushCallable | src/Router.php:370-376 | a callable is pushed every time, since it is never found |
| Registration.PushPopFresh | src/Router.php:165-173 | a middleware scope over a fresh entry restores the stack |
| Registration.PushPopPresent | src/Router.php:165-173 | a scope over an entry already present pops the earlier copy, so the stack ends one shorter |
| Registration.PushAllFresh | src/Router.php:177-181 | fresh entries are all appended, in order |
| Registration.RemoveAllFresh | src/Router.php:183-185 | popping fresh entries after pushing them restores the stack |
| Registration.AddCheck | src/Router.php:316-332 | a route is refused exactly when a non-callable callback does not split or a stacked middleware is invalid; the callback is checked first, then the first invalid middleware gives the error |
| Registration.ExecGroups | src/Router.php:155-162 | group prefixes form a stack: a command that returns leaves it as found, and one that throws leaves at least what was below |
| Registration.ExecAllGroups | src/Router.php:155-162 | the same for a whole registration callback |
| Registration.GroupFailureKeepsPrefix | src/Router.php:155-162 | an exception inside a group leaves its prefix on the stack |
| Registration.ExecMiddlewares | src/Router.php:165-187 | a scope whose entries are fresh leaves the middleware stack as found when it returns |
| Registration.ExecAllMiddlewares | src/Router.php:165-187 | the same for a whole callback |
| Registration.ReentryDropsMiddleware | src/Router.php:165-173 | re-entering `middleware` with an entry that is already pushed pushes nothing but pops it, so later routes of the enclosing scope lose it |
| Routes.RoutePattern | src/Routes/Route.php:216 | the matching pattern is the compiled path between `#^` and `$#i` |
| Routes.Shifted | src/Routes/Route.php:220 | `array_shift` drops the whole match and keeps the groups in order |
| Routes.ZipGet | src/Routes/Route.php:224-228 | each key's attribute is the group at its last position |
| Routes.ZipAbsent | src/Routes/Route.php:224-228 | only matched keys become attributes |
| Routes.ZipDistinct | src/Routes/Route.php:224-228 | with distinct keys, key i is capture group i + 1 |
| Routes.ZipUnique | src/Routes/Route.php:224-228 | the zipped attributes have distinct names |
| Routes.ZipKeys | src/Routes/Route.php:224-228 | the loop builds the attributes that `Zip` specifies |
| Routes.Route.Init | src/Routes/Route.php:140-151 | the constructor sets the fields and compiles the template once, from empty bindings; bindings and attributes have distinct names |
| Routes.Route.Create | src/Routes/Route.php:140-151 | the path is trimmed and names the route unless a name is given; a non-callable callback must split, or creation fails with the split's error; a created route has distinct binding and attribute names |
| Routes.Route.With | src/Routes/Route.php:196-200 | the parameter is bound to the regex with every `(` made non-capturing; the compiled pattern is not touched; distinct binding names stay distinct |
| Routes.Route.RegexMatcher | src/Routes/Route.php:286-292 | returns `:name`, binding the regex only if the name is unbound |
| Routes.Route.ParamsMatcher | src/Routes/Route.php:269-278 | one pass-2 step on the route's bindings and keys |
| Routes.Route.ResolvePath | src/Routes/Route.php:202-208 | the compiled path, bindings and keys are `Compile` of the template; distinct binding names stay distinct |
| Routes.Route.ReplaceBraced | src/Routes/Route.php:204 | pass 1 over the template's tokens |
| Routes.Route.ReplaceToken | src/Routes/Route.php:286-292 | one pass-1 replacement |
| Routes.Route.ReplaceTokens | src/Routes/Route.php:204 | the pass-1 loop renders and binds every token, in order |
| Routes.Route.ReplaceColons | src/Routes/Route.php:205 | the pass-2 loop over the tokens of pass 1's output |
| Routes.Route.Resolve | src/Routes/Route.php:213-233 | true exactly when the pattern matches; then the groups are kept and the keys zipped into attributes (only if there are keys); a failure changes nothing; distinct names stay distinct |
| Routes.Route.GenerateUri | src/Routes/Route.php:239-261 | the result is `Uris.GenerateUri` of the stored template and bindings, and, with distinct binding names, succeeds exactly when every bound key is given an accepted value |
| Routes.Route.SubstituteParams | src/Routes/Route.php:243-255 | the loop is `Substitute` |
| Routes.Route.SetControllerNamespace | src/Routes/Route.php:509-514 | the namespace is stored |
| Routes.Route.SetContainer | src/Routes/Route.php:549-554 | the container is stored |
| Routes.Route.SetRequest | src/Routes/Route.php:645-653 | the stored request is the given one, decorated; with distinct attribute names, `__route` reads the route, each attribute reads its own value, and every other name reads as in the given request |
| Routes.Route.SetPolicy | src/Routes/Route.php:619-630 | an accepted policy replaces the old one; a refused one leaves it in place |
| Routes.Route.SetMiddlewares | src/Routes/Route.php:668-691 | the new list and the outcome are `AddMiddlewares` of the old list |
| Routes.Route.Handle | src/Routes/Route.php:351-374 | the result and the new cursor are `Dispatch.Handle` from the old cursor |
| Routes.Route.ResolvePolicy | src/Routes/Route.php:581-614 | the policy's arguments resolved in order, then the call, cast to bool |
| Routes.Route.GetPolicy | src/Routes/Route.php:559-579 | the result is `EvalPolicy` of the stored policy |
| Routes.Route.ResolveBuildParams | src/Routes/Route.php:430-485 | the loop is `BindArgs` |
| Routes.Route.CallHandler | src/Routes/Route.php:312-345 | the handler part of `run`, as `Dispatch.CallHandler` |
| Routes.Route.Run | src/Routes/Route.php:298-346 | the request is decorated; the result and the new cursor are `Dispatch.Run` of the route's state before the call |
| Routers.Miss | src/Router.php:215-218 | no matching route throws exactly in throwing mode, and otherwise gives nothing |
| Routers.Verdict | src/Router.php:204-213 | a policy exception is passed on; a denial throws "Unauthorize route" or gives nothing; an allowed route is returned or run |
| Routers.RunAnswers | src/Router.php:226-229 | `run` answers or throws, and never gives a route or nothing |
| Routers.ResolveNeverAnswers | src/Router.php:236-239 | `resolve` never runs the route |
| Routers.FirstResolving | src/Router.php:201-203 | the index found is of a pattern that resolves the URL |
| Routers.FirstResolvingAt | src/Router.php:201-203 | the first resolving pattern, with none before it, is the one found |
| Routers.FirstResolvingNone | src/Router.php:201-219 | no resolving pattern means none found |
| Routers.FirstResolvingEarlier | src/Router.php:201-203 | only a route registered earlier can shadow a resolving one |
| Routers.StoreAppend | src/Router.php:143 | appending two runs of routes to the method buckets is appending them together |
| Routers.NameAppend | src/Router.php:142 | indexing two runs of routes by name is indexing them together, a later name winning |
| Routers.Router.constructor | src/Router.php:23-37 | empty registries and stacks, with the given container |
| Routers.Router.GetRoute | src/Router.php:269-272 | the route last registered under the name, if any |
| Routers.Router.AddRoute | src/Router.php:140-145 | the route goes last in its method's bucket and replaces any route of its name; nothing else changes |
| Routers.Router.Build | src/Router.php:316-332 | the new route's path is the trimmed prefixes followed by the path, and its name is the given name, else a string callback, else the raw path; it gets the middleware stack with later duplicates dropped, a truthy namespace and distinct binding names; it fails exactly as `AddCheck` says |
| Routers.Router.Add | src/Router.php:316-332 | a built route is stored with `addRoute`; a refusal stores nothing; the stored route carries the stack with later duplicates dropped |
| Routers.Router.AddGroupUri | src/Router.php:334-339 | the prefix is pushed |
| Routers.Router.RemoveGroupUri | src/Router.php:341-351 | the prefix's last occurrence is removed |
| Routers.Router.RemoveMiddleware | src/Router.php:353-363 | the entry's last occurrence is removed |
| Routers.Router.SetControllerNamespace | src/Router.php:255-263 | only a namespace that matches the pattern is stored; any other throws and changes nothing |
| Routers.Router.SetContainer | src/Router.php:295-300 | the container is stored |
| Routers.Router.Exec | src/Router.php:155-187 | one call of a registration callback changes the scope as `Registration.Exec` says; the routes stored are the fresh routes that `Registration.Added` lists, each built as its entry says, appended to its method's bucket in order and indexed by name, a later name winning |
| Routers.Router.ExecAll | src/Router.php:155-187 | a callback's calls run in order up to the first exception; the routes stored are the fresh routes that `Registration.Added` lists, each built as its entry says, appended to its method's bucket in order and indexed by name, a later name winning |
| Routers.Router.Group | src/Router.php:155-162 | push the prefix, run the callback, pop the prefix if the callback returns; the routes stored are the fresh routes that `Registration.Added` lists, each built as its entry says, appended to its method's bucket in order and indexed by name, a later name winning |
| Routers.Router.Middleware | src/Router.php:165-173 | push unless found, run the callback, pop the last occurrence if it returns; the routes stored are the fresh routes that `Registration.Added` lists, each built as its entry says, appended to its method's bucket in order and indexed by name, a later name winning |
| Routers.Router.Middlewares | src/Router.php:175-187 | push each entry unless found (any non-middleware type stops the loop), run, then pop each; the routes stored are the fresh routes that `Registration.Added` lists, each built as its entry says, appended to its method's bucket in order and indexed by name, a later name winning |
| Routers.Router.GenerateUri | src/Router.php:147-153 | an unknown name throws naming it; otherwise the named route generates, and for a route with distinct binding names it succeeds exactly when every bound key is given an accepted value |
| Routers.Router.Probe | src/Router.php:202 | `$route->resolve($url)`, stated through `Resolves` |
| Routers.Router.FindRoute | src/Router.php:201-203 | the loop finds the first resolving route; every other route keeps its matches and attributes |
| Routers.Router.Serve | src/Router.php:203-213 | the route gets the router's container and the decorated request; the policy decides as `Verdict` says, and the cursor moves only if the route runs (`Served`); no other route of the bucket changes |
| Routers.Router.Match | src/Router.php:194-219 | the first route of the method's bucket that resolves the path is served; no match is a miss; every other route is left as it was |

## Left out

- The regular-expression engine. `preg_match` and `preg_replace_callback`
  are split:
  - PHP's delimiter and modifier parsing is modelled exactly.
  - Matching a pattern body is an abstract `Engine`, and so is the `i` flag.
  - The two scans of template compilation are written as explicit scanners
    for the fixed patterns `\{([a-z]+):([^{}]*)\}` and `:([\w]+)`.
- Reflection and class loading are abstract inputs of a `Host`:
  - `class_exists` and `method_exists`;
  - `Helper::implements` (src/Utils/Helper.php:7-10);
  - parameter descriptors and `is_callable`.
- User code is abstract too (`Host.code`): constructors, handlers,
  middleware bodies, policy bodies, `json_encode` and string casts.
- PSR-7 requests and responses are values:
  - a request is a method, a path and an ordered attribute map;
  - a response is a status and a body.
- The PSR-11 container is a pair of functions, `has` and a `get` that may fail.
- `http_build_query` is `key=value` pairs joined by `&`, with the
  encoding of each part given as a parameter (`encode`).
- `get`, `post`, `put`, `patch`, `delete` and `any` (src/Router.php:52-138)
  are `add` with a fixed method. They appear only as the `Add` command's
  method string.
- `setRouteClassName` and `setRouter` (src/Router.php:307-314,
  src/Routes/Route.php:697-702) choose classes by name; they are not modelled.
- Plain getters (`getPath`, `getName`, `getAttributes` and so on) read
  fields that the model exposes directly.
- A `match` whose method has no bucket is modelled as an empty bucket.
  PHP warns and loops over nothing.
- A matched key with no capture group reads `""`. PHP reads `null` with a
  warning; both are falsy.
- A registration callback is a program of router commands (`Cmd`). Code
  inside it that does anything else is not modelled.
- `handle` returning no response is the error `NoResponse`. PHP would fail
  with a return-type `TypeError`.
- `Route::__invoke` (src/Routes/Route.php:379-382) is `handle`; a middleware
  that passes the request on is modelled as the `MwForward` result.
- Dispatch.Handle: a middleware that passes the request on gets the rest of
  the chain's result back unchanged (`MwForward`). One that alters that
  response, catches its exception, or calls the route twice is not modelled,
  because middleware bodies are user code.
- Whether an object is `Stringable` is a host input (`isStringable`), like the
  other reflection facts.

