/**
 * Route-template compilation. A slash-trimmed template is rewritten in two
 * left-to-right passes, each the scan `preg_replace_callback` makes:
 *
 *  1. every `{name:regex}` (name `[a-z]+`, regex free of braces) becomes
 *     `:name`, and the first regex seen for a name is bound to it, with every
 *     `(` turned into `(?:`;
 *  2. every `:name` (name `\w+`, longest run) becomes one capture group: the
 *     bound regex in parentheses, or the default `([^/]+)`, which is then bound
 *     to the name; the name is appended to the matched keys.
 *
 * Each scan is split here into a lexer (string to tokens, with its round trip)
 * and a fold over the tokens that threads the parameter bindings.
 */
module Templates {
  import opened Wrappers
  import opened Php
  import opened Pcre

  /** The pattern a `:name` without a bound regex gets. */
  const DEFAULT_PATTERN := "([^/]+)"

  /** Parameter name to regex, in binding order. */
  type Params = OMap<string>

  predicate IsLower(c: char) {
    'a' <= c <= 'z'
  }

  /** PCRE's `\w` without the `u` modifier. */
  predicate IsWord(c: char) {
    IsAlnum(c) || c == '_'
  }

  predicate AllLower(s: string) {
    forall i :: 0 <= i < |s| ==> IsLower(s[i])
  }

  predicate AllWord(s: string) {
    forall i :: 0 <= i < |s| ==> IsWord(s[i])
  }

  /** A piece of a template: a plain character, a `{name:regex}` or a `:name`. */
  datatype Token = Char(c: char) | Braced(name: string, regex: string) | Colon(name: string)

  /** The template text a token stands for. */
  function Text(t: Token): string {
    match t
    case Char(c) => [c]
    case Braced(n, r) => "{" + n + ":" + r + "}"
    case Colon(n) => ":" + n
  }

  function Concat(ts: seq<Token>): string
    decreases |ts|
  {
    if ts == [] then [] else Text(ts[0]) + Concat(ts[1..])
  }

  lemma ConcatCons(t: Token, rest: seq<Token>)
    ensures Concat([t] + rest) == Text(t) + Concat(rest)
  {
    assert ([t] + rest)[0] == t && ([t] + rest)[1..] == rest;
  }

  /** What `\{([a-z]+):([^{}]*)\}` can match. */
  predicate ValidBraced(t: Token) {
    t.Braced? && |t.name| > 0 && AllLower(t.name) && '{' !in t.regex && '}' !in t.regex
  }

  /** What `:([\w]+)` can match. */
  predicate ValidColon(t: Token) {
    t.Colon? && |t.name| > 0 && AllWord(t.name)
  }

  /** Length of the longest prefix of lower-case letters. */
  function LowerRun(s: string): (n: nat)
    ensures n <= |s| && AllLower(s[..n]) && (n < |s| ==> !IsLower(s[n]))
    decreases |s|
  {
    if s != [] && IsLower(s[0]) then 1 + LowerRun(s[1..]) else 0
  }

  /** Length of the longest prefix of word characters. */
  function WordRun(s: string): (n: nat)
    ensures n <= |s| && AllWord(s[..n]) && (n < |s| ==> !IsWord(s[n]))
    decreases |s|
  {
    if s != [] && IsWord(s[0]) then 1 + WordRun(s[1..]) else 0
  }

  /** Length of the longest prefix free of braces. */
  function BraceFreeRun(s: string): (n: nat)
    ensures n <= |s| && '{' !in s[..n] && '}' !in s[..n]
    ensures n < |s| ==> s[n] == '{' || s[n] == '}'
    decreases |s|
  {
    if s != [] && s[0] != '{' && s[0] != '}' then
      var n := 1 + BraceFreeRun(s[1..]);
      assert s[..n] == [s[0]] + s[1..][..n - 1];
      n
    else 0
  }

  /**
   * The match of `\{([a-z]+):([^{}]*)\}` anchored at the start of `s`, if any.
   * Both quantifiers are greedy and neither can give back a character the
   * following literal needs, so the match is unique.
   */
  function BraceAt(s: string): (r: Option<Token>)
    ensures r.Some? ==> r.value.Braced? && |Text(r.value)| <= |s|
  {
    if s == [] || s[0] != '{' then None
    else
      var n := LowerRun(s[1..]);
      if n == 0 || 1 + n >= |s| || s[1 + n] != ':' then None
      else
        var m := BraceFreeRun(s[2 + n..]);
        if 2 + n + m >= |s| || s[2 + n + m] != '}' then None
        else Some(Braced(s[1..1 + n], s[2 + n..2 + n + m]))
  }

  /** What the anchored scan finds is a valid `{name:regex}` spelled at the start of `s`. */
  lemma {:induction false} BraceAtSound(s: string)
    ensures BraceAt(s).Some? ==> ValidBraced(BraceAt(s).value) && s[..|Text(BraceAt(s).value)|] == Text(BraceAt(s).value)
  {
    if BraceAt(s).Some? {
      var t := BraceAt(s).value;
      var n := |t.name|;
      var m := |t.regex|;
      assert t.name == s[1..][..n];
      assert t.regex == s[2 + n..][..m];
      assert s[..|Text(t)|] == Text(t);
    }
  }

  /** Whenever the text at the start of `s` is a valid `{name:regex}`, the scan finds exactly it. */
  lemma {:induction false} BraceAtComplete(t: Token, rest: string)
    requires ValidBraced(t)
    ensures BraceAt(Text(t) + rest) == Some(t)
  {
    var s := Text(t) + rest;
    var n := |t.name|;
    BracedLayout(t, rest);
    LowerRunOf(t.name, s[1..]);
    BraceFreeRunOf(t.regex, s[2 + n..]);
    BraceAtParts(s, t);
  }

  /** Where the parts of a `{name:regex}` sit in its text. */
  lemma {:induction false} BracedLayout(t: Token, rest: string)
    requires t.Braced?
    ensures var s, n, m := Text(t) + rest, |t.name|, |t.regex|;
      2 + n + m < |s| && s[0] == '{' && s[1 + n] == ':' && s[2 + n + m] == '}' &&
      s[1..][..n] == t.name && s[1..][n] == ':' && s[2 + n..][..m] == t.regex && s[2 + n..][m] == '}' &&
      s[1..1 + n] == t.name && s[2 + n..2 + n + m] == t.regex
  {
    var s := Text(t) + rest;
    assert s == "{" + t.name + ":" + t.regex + "}" + rest;
  }

  /** The anchored scan, once the two runs are known. */
  lemma {:induction false} BraceAtParts(s: string, t: Token)
    requires t.Braced? && 0 < |t.name| && 2 + |t.name| + |t.regex| < |s|
    requires s[0] == '{' && s[1 + |t.name|] == ':' && s[2 + |t.name| + |t.regex|] == '}'
    requires s[1..1 + |t.name|] == t.name && s[2 + |t.name|..2 + |t.name| + |t.regex|] == t.regex
    requires LowerRun(s[1..]) == |t.name| && BraceFreeRun(s[2 + |t.name|..]) == |t.regex|
    ensures BraceAt(s) == Some(t)
  {
  }

  lemma {:induction false} LowerRunOf(name: string, s: string)
    requires |name| < |s| && s[..|name|] == name && AllLower(name) && !IsLower(s[|name|])
    ensures LowerRun(s) == |name|
  {
  }

  lemma {:induction false} BraceFreeRunOf(x: string, s: string)
    requires |x| < |s| && s[..|x|] == x && '{' !in x && '}' !in x && s[|x|] == '}'
    ensures BraceFreeRun(s) == |x|
  {
  }

  /** Pass 1's scan: at each position a `{name:regex}` is taken whole, otherwise one character. */
  function Lex1(s: string): (ts: seq<Token>)
    ensures forall k :: 0 <= k < |ts| ==> ts[k].Char? || ValidBraced(ts[k])
    decreases |s|
  {
    if s == [] then []
    else match BraceAt(s)
      case Some(t) => BraceAtSound(s); [t] + Lex1(s[|Text(t)|..])
      case None => [Char(s[0])] + Lex1(s[1..])
  }

  /** Pass 1 loses nothing: its tokens spell the template again. */
  lemma {:induction false} Lex1RoundTrip(s: string)
    ensures Concat(Lex1(s)) == s
    decreases |s|
  {
    if s != [] {
      match BraceAt(s)
      case Some(t) =>
        BraceAtSound(s);
        Lex1RoundTrip(s[|Text(t)|..]);
        assert s == s[..|Text(t)|] + s[|Text(t)|..];
      case None =>
        Lex1RoundTrip(s[1..]);
        assert s == [s[0]] + s[1..];
    }
  }

  /** The pass-1 replacement: `regexMatcher` returns `:name` for each `{name:regex}`. */
  function Render1(ts: seq<Token>): (r: string)
    decreases |ts|
  {
    if ts == [] then []
    else (if ts[0].Braced? then ":" + ts[0].name else Text(ts[0])) + Render1(ts[1..])
  }

  /** `with($param, $regex)`: the regex stored for a parameter, every `(` made non-capturing. */
  function WithRegex(regex: string): (r: string)
    ensures Openers(r) == 0
    ensures r == [] <==> regex == []
    ensures r != [] ==> (r[0] == '?' <==> regex[0] == '?')
  {
    WithRegexNoCapture(regex);
    StrReplace(regex, "(", "(?:")
  }

  lemma {:induction false} WithRegexNoCapture(regex: string)
    ensures Openers(StrReplace(regex, "(", "(?:")) == 0
    decreases |regex|
  {
    var r := StrReplace(regex, "(", "(?:");
    if regex != [] {
      var rest := StrReplace(regex[1..], "(", "(?:");
      WithRegexNoCapture(regex[1..]);
      if regex[0] == '(' {
        assert regex[..1] == "(";
        assert r == "(?:" + rest;
        var r1 := r[1..];
        assert r1 == "?:" + rest && r1[1..] == ":" + rest && r1[1..][1..] == rest;
        assert Openers(r1[1..]) == Openers(rest);
        assert Openers(r1) == Openers(r1[1..]);
        assert r[1] == '?';
        assert Openers(r) == Openers(r1);
      } else {
        assert regex[..1] != "(";
        assert r == [regex[0]] + rest;
        assert r[1..] == rest;
      }
    }
  }

  /**
   * The bindings pass 1 leaves: for each `{name:regex}` in order,
   * `regexMatcher` binds the regex only if the name is not bound yet.
   */
  function Bind1(ts: seq<Token>, params: Params): Params
    decreases |ts|
  {
    if ts == [] then params
    else if ts[0].Braced? && !HasKey(params, ts[0].name) then
      Bind1(ts[1..], Put(params, ts[0].name, WithRegex(ts[0].regex)))
    else Bind1(ts[1..], params)
  }

  /** What pass 1 writes for one token. */
  function Piece1(t: Token): string {
    if t.Braced? then ":" + t.name else Text(t)
  }

  /** What pass 1 binds for one token. */
  function Bind1Token(t: Token, params: Params): Params {
    if t.Braced? && !HasKey(params, t.name) then Put(params, t.name, WithRegex(t.regex)) else params
  }

  /** One step of pass 1 at position `k`: the token's piece moves from what is left to render into the output. */
  lemma Render1Step(ts: seq<Token>, k: nat, out: string, piece: string)
    requires k < |ts| && piece == Piece1(ts[k])
    requires out + Render1(ts[k..]) == Render1(ts)
    ensures (out + piece) + Render1(ts[k + 1..]) == Render1(ts)
  {
    assert ts[k..][1..] == ts[k + 1..];
    assert out + (piece + Render1(ts[k + 1..])) == (out + piece) + Render1(ts[k + 1..]);
  }

  /** One step of pass 1 at position `k`: the token's binding moves into the parameters. */
  lemma Bind1Step(ts: seq<Token>, k: nat, before: Params, after: Params, start: Params)
    requires k < |ts| && after == Bind1Token(ts[k], before)
    requires Bind1(ts[k..], before) == Bind1(ts, start)
    ensures Bind1(ts[k + 1..], after) == Bind1(ts, start)
  {
    assert ts[k..][1..] == ts[k + 1..];
  }

  /** The regex of the first `{name:regex}` token for `name`. */
  function FirstRegex(ts: seq<Token>, name: string): Option<string>
    decreases |ts|
  {
    if ts == [] then None
    else if ts[0].Braced? && ts[0].name == name then Some(ts[0].regex)
    else FirstRegex(ts[1..], name)
  }

  /**
   * After pass 1 a name keeps any binding it had; otherwise it is bound to the
   * first regex given for it in the template, and unbound if there is none.
   */
  lemma {:induction false} Bind1Get(ts: seq<Token>, params: Params, name: string)
    ensures Get(Bind1(ts, params), name) ==
      if HasKey(params, name) then Get(params, name)
      else match FirstRegex(ts, name)
        case Some(r) => Some(WithRegex(r))
        case None => None
    decreases |ts|
  {
    if ts != [] {
      if ts[0].Braced? && !HasKey(params, ts[0].name) {
        var p' := Put(params, ts[0].name, WithRegex(ts[0].regex));
        PutGet(params, ts[0].name, WithRegex(ts[0].regex), name);
        assert HasKey(p', name) <==> HasKey(params, name) || name == ts[0].name;
        Bind1Get(ts[1..], p', name);
      } else {
        Bind1Get(ts[1..], params, name);
      }
    }
  }

  /** Pass 1 binds only regexes that open no capture group. */
  lemma {:induction false} Bind1NoCapture(ts: seq<Token>, params: Params)
    requires forall k :: 0 <= k < |params| ==> Openers(params[k].1) == 0
    ensures forall k :: 0 <= k < |Bind1(ts, params)| ==> Openers(Bind1(ts, params)[k].1) == 0
    decreases |ts|
  {
    if ts != [] {
      if ts[0].Braced? && !HasKey(params, ts[0].name) {
        var p' := Put(params, ts[0].name, WithRegex(ts[0].regex));
        PutValues(params, ts[0].name, WithRegex(ts[0].regex));
        Bind1NoCapture(ts[1..], p');
      } else {
        Bind1NoCapture(ts[1..], params);
      }
    }
  }

  /** Every value of `Put(m, k, v)` is `v` or a value of `m`. */
  lemma {:induction false} PutValues(m: Params, k: string, v: string)
    ensures forall i :: 0 <= i < |Put(m, k, v)| ==> Put(m, k, v)[i].1 == v || Put(m, k, v)[i] in m
    decreases |m|
  {
    if m != [] && m[0].0 != k {
      PutValues(m[1..], k, v);
      assert Put(m, k, v)[1..] == Put(m[1..], k, v);
    }
  }

  /** A template without `{` passes pass 1 unchanged. */
  lemma {:induction false} Render1NoBrace(s: string)
    requires '{' !in s
    ensures Render1(Lex1(s)) == s
    decreases |s|
  {
    if s != [] {
      assert BraceAt(s) == None;
      Render1NoBrace(s[1..]);
      assert s == [s[0]] + s[1..];
    }
  }

  /** A template without `{` binds nothing in pass 1. */
  lemma {:induction false} Bind1NoBrace(s: string, params: Params)
    requires '{' !in s
    ensures Bind1(Lex1(s), params) == params
    decreases |s|
  {
    if s != [] {
      assert BraceAt(s) == None;
      Bind1NoBrace(s[1..], params);
    }
  }

  /** The match of `:([\w]+)` anchored at the start of `s`, if any (the run is the longest). */
  function ColonAt(s: string): (r: Option<Token>)
    ensures r.Some? ==> ValidColon(r.value) && |Text(r.value)| <= |s| && s[..|Text(r.value)|] == Text(r.value)
    ensures r.Some? ==> |Text(r.value)| == |s| || !IsWord(s[|Text(r.value)|])
  {
    if s == [] || s[0] != ':' then None
    else
      var n := WordRun(s[1..]);
      if n == 0 then None
      else
        var t := Colon(s[1..1 + n]);
        assert s[1..1 + n] == s[1..][..n];
        assert s[..|Text(t)|] == Text(t);
        Some(t)
  }

  /** Pass 2's scan: at each position a `:name` is taken whole, otherwise one character. */
  function Lex2(s: string): (ts: seq<Token>)
    ensures forall k :: 0 <= k < |ts| ==> ts[k].Char? || ValidColon(ts[k])
    decreases |s|
  {
    if s == [] then []
    else match ColonAt(s)
      case Some(t) => [t] + Lex2(s[|Text(t)|..])
      case None => [Char(s[0])] + Lex2(s[1..])
  }

  lemma {:induction false} Lex2RoundTrip(s: string)
    ensures Concat(Lex2(s)) == s
    decreases |s|
  {
    if s != [] {
      var c := ColonAt(s);
      if c.Some? {
        var n := |Text(c.value)|;
        assert Lex2(s) == [c.value] + Lex2(s[n..]);
        Lex2RoundTrip(s[n..]);
        ConcatCons(c.value, Lex2(s[n..]));
        assert s == s[..n] + s[n..];
      } else {
        assert Lex2(s) == [Char(s[0])] + Lex2(s[1..]);
        Lex2RoundTrip(s[1..]);
        ConcatCons(Char(s[0]), Lex2(s[1..]));
        assert s == [s[0]] + s[1..];
      }
    }
  }

  /** First character a token spells. */
  function Head(t: Token): char {
    Text(t)[0]
  }

  /**
   * The token sequences pass 2's scan produces: characters and valid `:name`
   * tokens, where neither a `:name` nor a lone `:` is followed by a word
   * character (names are longest runs, and a `:` before a word character
   * always starts a token).
   */
  predicate Canonical2(ts: seq<Token>) {
    (forall k :: 0 <= k < |ts| ==> ts[k].Char? || ValidColon(ts[k])) &&
    forall k :: 0 <= k < |ts| - 1 && (ts[k].Colon? || ts[k] == Char(':')) ==> !IsWord(Head(ts[k + 1]))
  }

  /** Pass 2's scan produces canonical token sequences... */
  lemma {:induction false} Lex2Canonical(s: string)
    ensures Canonical2(Lex2(s))
    decreases |s|
  {
    if s != [] {
      var ts := Lex2(s);
      var t := ts[0];
      var rest := s[|Text(t)|..];
      Lex2Canonical(rest);
      assert ts[1..] == Lex2(rest);
      if |ts| > 1 {
        Lex2RoundTrip(rest);
        assert Concat(ts[1..]) == rest;
        assert rest[0] == Head(ts[1]);
        if t == Char(':') {
          assert ColonAt(s) == None;
          assert s[1] == rest[0];
        }
      }
      forall k | 0 <= k < |ts| - 1 && (ts[k].Colon? || ts[k] == Char(':'))
        ensures !IsWord(Head(ts[k + 1]))
      {
        if k > 0 {
          assert ts[k] == ts[1..][k - 1] && ts[k + 1] == ts[1..][k];
        }
      }
    }
  }

  /** ...and reads every canonical sequence back from the text it spells. */
  lemma {:induction false} Lex2OfCanonical(ts: seq<Token>)
    requires Canonical2(ts)
    ensures Lex2(Concat(ts)) == ts
    decreases |ts|
  {
    if ts != [] {
      var t := ts[0];
      var rest := Concat(ts[1..]);
      assert Concat(ts) == Text(t) + rest;
      Canonical2Tail(ts);
      Lex2OfCanonical(ts[1..]);
      if |ts| > 1 {
        ConcatHead(ts[1..]);
      } else {
        assert rest == [];
      }
      Lex2Step(t, rest);
      assert ts == [t] + ts[1..];
    }
  }

  /** One token of a canonical sequence is scanned back whole, given what follows it. */
  lemma {:induction false} Lex2Step(t: Token, rest: string)
    requires t.Char? || ValidColon(t)
    requires (t.Colon? || t == Char(':')) ==> rest == [] || !IsWord(rest[0])
    ensures Lex2(Text(t) + rest) == [t] + Lex2(rest)
  {
    var s := Text(t) + rest;
    ColonAtToken(t, rest);
    assert s[|Text(t)|..] == rest;
  }

  lemma {:induction false} Canonical2Tail(ts: seq<Token>)
    requires ts != [] && Canonical2(ts)
    ensures Canonical2(ts[1..])
  {
    forall k | 0 <= k < |ts[1..]| - 1 && (ts[1..][k].Colon? || ts[1..][k] == Char(':'))
      ensures !IsWord(Head(ts[1..][k + 1]))
    {
      assert ts[1..][k] == ts[k + 1] && ts[1..][k + 1] == ts[k + 2];
    }
  }

  /** The anchored scan finds a token at the start of its own text, given what may follow it. */
  lemma {:induction false} ColonAtToken(t: Token, rest: string)
    requires t.Char? || ValidColon(t)
    requires (t.Colon? || t == Char(':')) ==> rest == [] || !IsWord(rest[0])
    ensures ColonAt(Text(t) + rest) == if t.Colon? then Some(t) else None
  {
    var s := Text(t) + rest;
    if t.Colon? {
      assert s == [':'] + (t.name + rest);
      assert s[1..] == t.name + rest;
      assert s[1..][..|t.name|] == t.name;
      if |t.name| < |s[1..]| {
        assert s[1..][|t.name|] == rest[0];
      }
      WordRunOf(t.name, s[1..]);
      assert s[1..1 + |t.name|] == t.name;
    } else if t.c == ':' {
      assert s[1..] == rest;
      if rest != [] {
        assert WordRun(s[1..]) == 0;
      }
    }
  }

  lemma {:induction false} ConcatHead(ts: seq<Token>)
    requires ts != []
    ensures Concat(ts) != [] && Concat(ts)[0] == Head(ts[0])
  {
    assert Concat(ts) == Text(ts[0]) + Concat(ts[1..]);
  }

  lemma {:induction false} WordRunOf(name: string, s: string)
    requires |name| <= |s| && s[..|name|] == name && AllWord(name)
    requires |name| == |s| || !IsWord(s[|name|])
    ensures WordRun(s) == |name|
  {
  }

  /** What pass 2 has built so far: the compiled text, the bindings and the matched keys. */
  datatype Pass2 = Pass2(text: string, params: Params, keys: seq<string>)

  /**
   * One token of pass 2. For a `:name`, `paramsMatcher`: a bound name becomes
   * its regex in parentheses, an unbound one the default pattern, which it
   * then binds; either way the name is appended to the keys. Any other token
   * is copied.
   */
  function Step(t: Token, acc: Pass2): (r: Pass2)
    ensures |acc.text| <= |r.text| && r.text[..|acc.text|] == acc.text
  {
    if t.Colon? then
      match Get(acc.params, t.name)
      case Some(v) => Pass2(acc.text + ("(" + v + ")"), acc.params, acc.keys + [t.name])
      case None => Pass2(acc.text + DEFAULT_PATTERN, Put(acc.params, t.name, DEFAULT_PATTERN), acc.keys + [t.name])
    else Pass2(acc.text + Text(t), acc.params, acc.keys)
  }

  /** What a step appends does not depend on the text before it. */
  lemma StepPiece(t: Token, acc: Pass2)
    ensures var s := Step(t, Pass2("", acc.params, acc.keys));
      Step(t, acc) == Pass2(acc.text + s.text, s.params, s.keys)
  {
    var s := Step(t, Pass2("", acc.params, acc.keys));
    if t.Colon? {
      if Get(acc.params, t.name).Some? {
        assert s.text == "" + ("(" + Get(acc.params, t.name).value + ")");
      } else {
        assert s.text == "" + DEFAULT_PATTERN;
      }
    } else {
      assert s.text == "" + Text(t);
    }
  }

  /** Pass 2 over a token sequence, left to right. */
  function Render2(ts: seq<Token>, acc: Pass2): Pass2
    decreases |ts|
  {
    if ts == [] then acc else Render2(ts[1..], Step(ts[0], acc))
  }

  /** The names of the `:name` tokens, in order. */
  function Names(ts: seq<Token>): seq<string>
    decreases |ts|
  {
    if ts == [] then [] else (if ts[0].Colon? then [ts[0].name] else []) + Names(ts[1..])
  }

  /** The matched keys are the `:name` tokens, left to right, one per token. */
  lemma {:induction false} Render2Keys(ts: seq<Token>, acc: Pass2)
    ensures Render2(ts, acc).keys == acc.keys + Names(ts)
    decreases |ts|
  {
    if ts != [] {
      Render2Keys(ts[1..], Step(ts[0], acc));
    }
  }

  /**
   * Pass 2 keeps every binding it finds and binds the default pattern to each
   * unbound name it meets; no other name is touched.
   */
  lemma {:induction false} Render2Get(ts: seq<Token>, acc: Pass2, name: string)
    ensures Get(Render2(ts, acc).params, name) ==
      if HasKey(acc.params, name) then Get(acc.params, name)
      else if name in Names(ts) then Some(DEFAULT_PATTERN)
      else None
    decreases |ts|
  {
    if ts != [] {
      var t := ts[0];
      assert Names(ts) == (if t.Colon? then [t.name] else []) + Names(ts[1..]);
      if t.Colon? && Get(acc.params, t.name).None? {
        PutGet(acc.params, t.name, DEFAULT_PATTERN, name);
      }
      Render2Get(ts[1..], Step(t, acc), name);
    }
  }

  /** Pass 2 only ever appends to the compiled text. */
  lemma {:induction false} Render2Extends(ts: seq<Token>, acc: Pass2)
    ensures |acc.text| <= |Render2(ts, acc).text| && Render2(ts, acc).text[..|acc.text|] == acc.text
    decreases |ts|
  {
    if ts != [] {
      var a := Step(ts[0], acc);
      Render2Extends(ts[1..], a);
      assert Render2(ts, acc).text[..|a.text|][..|acc.text|] == acc.text;
    }
  }

  /** A regex that opens no capture group and does not start with `?`. */
  predicate Neutral(v: string) {
    Openers(v) == 0 && (v == [] || v[0] != '?')
  }

  /** Every name pass 2 will look up that is already bound is bound to a neutral regex. */
  predicate NeutralFor(ts: seq<Token>, params: Params) {
    forall n :: n in Names(ts) && HasKey(params, n) ==> Neutral(Get(params, n).value)
  }

  /** A name that is met twice by pass 2 is bound before it. */
  predicate RepeatsBound(ts: seq<Token>, params: Params) {
    forall i, j :: 0 <= i < j < |Names(ts)| && Names(ts)[i] == Names(ts)[j] ==> HasKey(params, Names(ts)[i])
  }

  /**
   * Group alignment: when the text has no `(` of its own, the regexes bound to
   * its names are neutral and a name met twice is bound before pass 2, the
   * compiled text opens exactly one capture group per matched key, so capture
   * group i + 1 belongs to key i.
   */
  lemma {:induction false} Render2Aligned(ts: seq<Token>, acc: Pass2)
    requires forall k :: 0 <= k < |ts| ==> (ts[k].Char? && ts[k].c != '(') || ts[k].Colon?
    requires NeutralFor(ts, acc.params) && RepeatsBound(ts, acc.params)
    requires acc.text == [] || acc.text[|acc.text| - 1] != '('
    ensures Openers(Render2(ts, acc).text) == Openers(acc.text) + |Names(ts)|
    decreases |ts|
  {
    if ts != [] {
      AlignedTail(ts, acc.params);
      StepAligned(ts, acc);
      Render2Aligned(ts[1..], Step(ts[0], acc));
    }
  }

  /** One step of alignment: a `:name` opens one group, a character none, and the side conditions carry over. */
  lemma StepAligned(ts: seq<Token>, acc: Pass2)
    requires ts != [] && ((ts[0].Char? && ts[0].c != '(') || ts[0].Colon?)
    requires NeutralFor(ts, acc.params) && RepeatsBound(ts, acc.params)
    requires NeutralFor(ts[1..], acc.params) && RepeatsBound(ts[1..], acc.params)
    requires acc.text == [] || acc.text[|acc.text| - 1] != '('
    ensures var a := Step(ts[0], acc);
      Openers(a.text) == Openers(acc.text) + |Names(ts)| - |Names(ts[1..])| &&
      a.text != [] && a.text[|a.text| - 1] != '(' &&
      NeutralFor(ts[1..], a.params) && RepeatsBound(ts[1..], a.params)
  {
    if ts[0].Char? {
      StepAlignedChar(ts, acc);
    } else if HasKey(acc.params, ts[0].name) {
      StepAlignedBound(ts, acc);
    } else {
      StepAlignedDefault(ts, acc);
    }
  }

  /** A character other than `(` opens no group and binds nothing. */
  lemma StepAlignedChar(ts: seq<Token>, acc: Pass2)
    requires ts != [] && ts[0].Char? && ts[0].c != '('
    requires acc.text == [] || acc.text[|acc.text| - 1] != '('
    ensures var a := Step(ts[0], acc);
      Openers(a.text) == Openers(acc.text) + |Names(ts)| - |Names(ts[1..])| &&
      a.text != [] && a.text[|a.text| - 1] != '(' && a.params == acc.params
  {
    var t := ts[0];
    assert Names(ts) == Names(ts[1..]);
    OpenersAppend(acc.text, [t.c]);
    OpenersCons(t.c, []);
  }

  /** A bound `:name` writes its neutral regex inside one group and binds nothing. */
  lemma StepAlignedBound(ts: seq<Token>, acc: Pass2)
    requires ts != [] && ts[0].Colon? && HasKey(acc.params, ts[0].name)
    requires NeutralFor(ts, acc.params)
    requires acc.text == [] || acc.text[|acc.text| - 1] != '('
    ensures var a := Step(ts[0], acc);
      Openers(a.text) == Openers(acc.text) + |Names(ts)| - |Names(ts[1..])| &&
      a.text != [] && a.text[|a.text| - 1] != '(' && a.params == acc.params
  {
    var t := ts[0];
    assert Names(ts) == [t.name] + Names(ts[1..]);
    var v := Get(acc.params, t.name).value;
    assert t.name in Names(ts);
    BoundPieceOpeners(acc.text, v);
    var text := acc.text + ("(" + v + ")");
    assert text[|text| - 1] == ')';
  }

  /** An unbound `:name` writes the default group and binds the default, which keeps the side conditions. */
  lemma StepAlignedDefault(ts: seq<Token>, acc: Pass2)
    requires ts != [] && ts[0].Colon? && !HasKey(acc.params, ts[0].name)
    requires NeutralFor(ts, acc.params) && RepeatsBound(ts, acc.params)
    requires NeutralFor(ts[1..], acc.params) && RepeatsBound(ts[1..], acc.params)
    requires acc.text == [] || acc.text[|acc.text| - 1] != '('
    ensures var a := Step(ts[0], acc);
      Openers(a.text) == Openers(acc.text) + |Names(ts)| - |Names(ts[1..])| &&
      a.text != [] && a.text[|a.text| - 1] != '(' &&
      NeutralFor(ts[1..], a.params) && RepeatsBound(ts[1..], a.params)
  {
    var t := ts[0];
    assert Names(ts) == [t.name] + Names(ts[1..]);
    DefaultStepOpeners(acc.text);
    DefaultKeepsFacts(ts, acc.params, t.name);
  }

  lemma {:induction false} DefaultStepOpeners(text: string)
    requires text == [] || text[|text| - 1] != '('
    ensures Openers(text + DEFAULT_PATTERN) == Openers(text) + 1
  {
    OpenersAppend(text, DEFAULT_PATTERN);
    assert Openers(DEFAULT_PATTERN) == 1;
  }

  /** A bound group `(v)` with a neutral `v` opens exactly one group. */
  lemma {:induction false} BoundPieceOpeners(text: string, v: string)
    requires Neutral(v) && (text == [] || text[|text| - 1] != '(')
    ensures Openers(text + ("(" + v + ")")) == Openers(text) + 1
  {
    var piece := "(" + v + ")";
    OpenersAppend(text, piece);
    assert piece == ['('] + (v + ")");
    OpenersCons('(', v + ")");
    OpenersAppend(v, ")");
  }

  /** The side conditions of alignment hold for the tokens after the first. */
  lemma {:induction false} AlignedTail(ts: seq<Token>, params: Params)
    requires ts != [] && NeutralFor(ts, params) && RepeatsBound(ts, params)
    requires forall k :: 0 <= k < |ts| ==> (ts[k].Char? && ts[k].c != '(') || ts[k].Colon?
    ensures NeutralFor(ts[1..], params) && RepeatsBound(ts[1..], params)
    ensures forall k :: 0 <= k < |ts[1..]| ==> (ts[1..][k].Char? && ts[1..][k].c != '(') || ts[1..][k].Colon?
  {
    var ns := Names(ts);
    var ns' := Names(ts[1..]);
    var h := if ts[0].Colon? then [ts[0].name] else [];
    assert ns == h + ns';
    assert forall i :: 0 <= i < |ns'| ==> ns'[i] == ns[i + |h|];
    assert forall n :: n in ns' ==> n in ns;
    forall i, j | 0 <= i < j < |ns'| && ns'[i] == ns'[j]
      ensures HasKey(params, ns'[i])
    {
      assert ns[i + |h|] == ns[j + |h|];
    }
  }

  /**
   * Binding the default to the name of the first token, when it is unbound,
   * keeps both side conditions for the rest: a name met twice is bound, so
   * this one is not met again.
   */
  lemma {:induction false} DefaultKeepsFacts(ts: seq<Token>, params: Params, name: string)
    requires ts != [] && ts[0] == Colon(name) && !HasKey(params, name)
    requires RepeatsBound(ts, params) && NeutralFor(ts[1..], params) && RepeatsBound(ts[1..], params)
    ensures RepeatsBound(ts[1..], Put(params, name, DEFAULT_PATTERN))
    ensures NeutralFor(ts[1..], Put(params, name, DEFAULT_PATTERN))
  {
    var ns := Names(ts);
    var ns' := Names(ts[1..]);
    assert ns == [name] + ns';
    forall j | 0 <= j < |ns'|
      ensures ns'[j] != name
    {
      assert ns'[j] == ns[j + 1] && ns[0] == name;
    }
    var p' := Put(params, name, DEFAULT_PATTERN);
    forall n | n in ns'
      ensures Get(p', n) == Get(params, n)
    {
      PutGet(params, name, DEFAULT_PATTERN, n);
    }
  }

  // ---------------------------------------------------------------------------
  // Both passes

  /**
   * `resolvePath`: pass 1 over the template, then pass 2 over its output,
   * starting from the bindings `params` and the keys `keys`.
   */
  function Compile(path: string, params: Params, keys: seq<string>): Pass2 {
    var ts1 := Lex1(path);
    Render2(Lex2(Render1(ts1)), Pass2("", Bind1(ts1, params), keys))
  }

  /** Pass 1 binds each name at most once. */
  lemma {:induction false} Bind1Unique(ts: seq<Token>, params: Params)
    requires UniqueKeys(params)
    ensures UniqueKeys(Bind1(ts, params))
    decreases |ts|
  {
    if ts != [] {
      if ts[0].Braced? && !HasKey(params, ts[0].name) {
        PutUnique(params, ts[0].name, WithRegex(ts[0].regex));
        Bind1Unique(ts[1..], Put(params, ts[0].name, WithRegex(ts[0].regex)));
      } else {
        Bind1Unique(ts[1..], params);
      }
    }
  }

  /** Pass 2 binds each name at most once. */
  lemma {:induction false} Render2Unique(ts: seq<Token>, acc: Pass2)
    requires UniqueKeys(acc.params)
    ensures UniqueKeys(Render2(ts, acc).params)
    decreases |ts|
  {
    if ts != [] {
      if ts[0].Colon? && Get(acc.params, ts[0].name).None? {
        PutUnique(acc.params, ts[0].name, DEFAULT_PATTERN);
      }
      Render2Unique(ts[1..], Step(ts[0], acc));
    }
  }

  /** Compiling keeps the parameters a map: no name is bound twice. */
  lemma CompileUnique(path: string, params: Params, keys: seq<string>)
    requires UniqueKeys(params)
    ensures UniqueKeys(Compile(path, params, keys).params)
  {
    Bind1Unique(Lex1(path), params);
    Render2Unique(Lex2(Render1(Lex1(path))), Pass2("", Bind1(Lex1(path), params), keys));
  }

  /** The `:name` tokens pass 2 finds in what pass 1 left, in order. */
  function ParamNames(path: string): seq<string> {
    Names(Lex2(Render1(Lex1(path))))
  }

  /**
   * After compilation the matched keys are the template's parameter tokens in
   * order, and every name is bound: to the first regex its `{name:regex}`
   * gave, else to the default when it occurs as a `:name`, and not at all
   * otherwise.
   */
  lemma CompileSpec(path: string, name: string)
    ensures Compile(path, [], []).keys == ParamNames(path)
    ensures Get(Compile(path, [], []).params, name) ==
      match FirstRegex(Lex1(path), name)
      case Some(r) => Some(WithRegex(r))
      case None => if name in ParamNames(path) then Some(DEFAULT_PATTERN) else None
  {
    var ts1 := Lex1(path);
    var ts2 := Lex2(Render1(ts1));
    var acc := Pass2("", Bind1(ts1, []), []);
    Render2Keys(ts2, acc);
    Bind1Get(ts1, [], name);
    Render2Get(ts2, acc, name);
  }

  /** Every matched key has a binding. */
  lemma CompileBindsKeys(path: string)
    ensures forall k :: k in Compile(path, [], []).keys ==> HasKey(Compile(path, [], []).params, k)
  {
    forall k | k in Compile(path, [], []).keys
      ensures HasKey(Compile(path, [], []).params, k)
    {
      CompileSpec(path, k);
    }
  }

  /** A character token spells a character of the concatenation. */
  lemma {:induction false} CharInConcat(ts: seq<Token>, k: nat)
    requires k < |ts| && ts[k].Char?
    ensures ts[k].c in Concat(ts)
    decreases k
  {
    if k == 0 {
      assert Concat(ts)[0] == ts[0].c;
    } else {
      CharInConcat(ts[1..], k - 1);
      assert Concat(ts) == Text(ts[0]) + Concat(ts[1..]);
    }
  }

  /** Pass 1 writes no `(` of its own. */
  lemma {:induction false} Render1NoParen(ts: seq<Token>)
    requires '(' !in Concat(ts)
    requires forall k :: 0 <= k < |ts| ==> ts[k].Char? || ValidBraced(ts[k])
    ensures '(' !in Render1(ts)
    decreases |ts|
  {
    if ts != [] {
      assert Concat(ts) == Text(ts[0]) + Concat(ts[1..]);
      assert forall k :: 1 <= k < |ts| ==> ts[k] == ts[1..][k - 1];
      Render1NoParen(ts[1..]);
      if ts[0].Braced? {
        var piece := ":" + ts[0].name;
        assert forall i :: 0 <= i < |piece| ==> piece[i] == ':' || IsLower(piece[i]);
      }
    }
  }

  /** The first regex given for a name is the regex of one of its `{name:regex}` tokens. */
  lemma {:induction false} FirstRegexIn(ts: seq<Token>, name: string)
    requires FirstRegex(ts, name).Some?
    ensures exists k :: 0 <= k < |ts| && ts[k] == Braced(name, FirstRegex(ts, name).value)
    decreases |ts|
  {
    if !(ts[0].Braced? && ts[0].name == name) {
      FirstRegexIn(ts[1..], name);
      var k :| 0 <= k < |ts[1..]| && ts[1..][k] == Braced(name, FirstRegex(ts, name).value);
      assert ts[k + 1] == ts[1..][k];
    }
  }

  /** No `{name:regex}` of the template has a regex starting with `?`. */
  predicate NoQuestionRegex(path: string) {
    forall k :: 0 <= k < |Lex1(path)| && Lex1(path)[k].Braced? ==>
      Lex1(path)[k].regex == [] || Lex1(path)[k].regex[0] != '?'
  }

  /** A `:name` that occurs twice has a regex from the template. */
  predicate RepeatsHaveRegex(path: string) {
    forall i, j :: 0 <= i < j < |ParamNames(path)| && ParamNames(path)[i] == ParamNames(path)[j] ==>
      FirstRegex(Lex1(path), ParamNames(path)[i]).Some?
  }

  /**
   * Key/group alignment for a whole template: when its text has no `(`
   * outside the braces (a regex inside `{name:regex}` may group freely, since
   * pass 1 replaces it by a neutral `(?:...)`), no regex it binds starts with `?`, and a name used twice has a regex, the
   * compiled pattern opens one capture group per matched key, so key i is
   * capture group i + 1.
   */
  lemma CompileAligned(path: string)
    requires '(' !in Render1(Lex1(path)) && NoQuestionRegex(path) && RepeatsHaveRegex(path)
    ensures Openers(Compile(path, [], []).text) == |Compile(path, [], []).keys|
  {
    var ts1 := Lex1(path);
    var r1 := Render1(ts1);
    var ts2 := Lex2(r1);
    var p1 := Bind1(ts1, []);
    var acc := Pass2("", p1, []);
    Lex2RoundTrip(r1);
    forall k | 0 <= k < |ts2|
      ensures (ts2[k].Char? && ts2[k].c != '(') || ts2[k].Colon?
    {
      if ts2[k].Char? {
        CharInConcat(ts2, k);
      }
    }
    forall n | n in Names(ts2) && HasKey(p1, n)
      ensures Neutral(Get(p1, n).value)
    {
      Bind1Get(ts1, [], n);
      FirstRegexIn(ts1, n);
    }
    forall i, j | 0 <= i < j < |Names(ts2)| && Names(ts2)[i] == Names(ts2)[j]
      ensures HasKey(p1, Names(ts2)[i])
    {
      assert ParamNames(path) == Names(ts2);
      var none: Params := [];
      assert !HasKey(none, Names(ts2)[i]);
      Bind1Get(ts1, [], Names(ts2)[i]);
    }
    Render2Aligned(ts2, acc);
    Render2Keys(ts2, acc);
    assert Openers("") == 0;
  }

  /**
   * Why a repeated name needs a regex of its own: the second `:name` of an
   * unbound name finds the default just bound to it and wraps it in another
   * pair of parentheses, so two keys open three capture groups and every later
   * key is read from the wrong group.
   */
  lemma RepeatedDefaultMisaligns(acc: Pass2, name: string)
    requires !HasKey(acc.params, name) && (acc.text == [] || acc.text[|acc.text| - 1] != '(')
    ensures Step(Colon(name), Step(Colon(name), acc)).keys == acc.keys + [name, name]
    ensures Step(Colon(name), Step(Colon(name), acc)).text == acc.text + DEFAULT_PATTERN + ("(" + DEFAULT_PATTERN + ")")
    ensures Openers(Step(Colon(name), Step(Colon(name), acc)).text) == Openers(acc.text) + 3
  {
    StepUnbound(acc, name);
    var a1 := Step(Colon(name), acc);
    PutGet(acc.params, name, DEFAULT_PATTERN, name);
    StepBound(a1, name, DEFAULT_PATTERN);
    assert a1.keys + [name] == acc.keys + [name, name];
    RepeatedDefaultOpeners(acc.text);
  }

  /** The default, then the default wrapped once more, open three groups. */
  lemma RepeatedDefaultOpeners(text: string)
    requires text == [] || text[|text| - 1] != '('
    ensures Openers(text + DEFAULT_PATTERN + ("(" + DEFAULT_PATTERN + ")")) == Openers(text) + 3
  {
    var t1 := text + DEFAULT_PATTERN;
    DefaultStepOpeners(text);
    assert t1[|t1| - 1] == ')';
    WrappedDefaultOpeners();
    OpenersAppend(t1, "(" + DEFAULT_PATTERN + ")");
  }

  lemma StepUnbound(acc: Pass2, name: string)
    requires !HasKey(acc.params, name)
    ensures Step(Colon(name), acc) == Pass2(acc.text + DEFAULT_PATTERN, Put(acc.params, name, DEFAULT_PATTERN), acc.keys + [name])
  {
  }

  lemma StepBound(acc: Pass2, name: string, v: string)
    requires Get(acc.params, name) == Some(v)
    ensures Step(Colon(name), acc) == Pass2(acc.text + ("(" + v + ")"), acc.params, acc.keys + [name])
  {
  }

  /** The default wrapped once more, `(([^/]+))`, opens two groups. */
  lemma WrappedDefaultOpeners()
    ensures Openers("(" + DEFAULT_PATTERN + ")") == 2
  {
    var rest := "[^/]+))";
    OpenersNone(rest);
    assert "(" + DEFAULT_PATTERN + ")" == ['('] + (['('] + rest);
    OpenersCons('(', rest);
    OpenersCons('(', ['('] + rest);
  }
}
