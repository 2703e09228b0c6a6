/**
 * What the router needs from PHP's PCRE functions. `preg_match` first splits
 * its pattern argument into a body and trailing modifiers at the delimiters;
 * that split is PHP's own code and is modelled exactly, because the router's
 * patterns are built by concatenation. Matching the body against a subject is
 * left to an `Engine`, a parameter of every operation that matches.
 */
module Pcre {
  import opened Wrappers

  /**
   * The regular-expression engine: given a pattern body, its modifiers and a
   * subject, either no match (or a body that does not compile), or the whole
   * match followed by the captured groups, as `preg_match` fills `$matches`.
   */
  datatype Engine = Engine(exec: (string, string, string) -> Option<seq<string>>)

  predicate IsAlnum(c: char) {
    ('a' <= c <= 'z') || ('A' <= c <= 'Z') || ('0' <= c <= '9')
  }

  /** The pattern modifiers PCRE accepts after the closing delimiter. */
  predicate IsModifier(c: char) {
    c == 'i' || c == 'm' || c == 's' || c == 'x' || c == 'u' || c == 'A' || c == 'D' || c == 'S' ||
    c == 'U' || c == 'X' || c == 'J' || c == 'n' || c == ' ' || c == '\n' || c == '\r'
  }

  /** The opening brackets that would make PCRE look for the matching closing one. */
  predicate IsOpeningBracket(c: char) {
    c == '(' || c == '[' || c == '{' || c == '<'
  }

  /** Every character of `s` is a modifier. */
  predicate Modifiers(s: string)
    decreases |s|
  {
    s == [] || (IsModifier(s[0]) && Modifiers(s[1..]))
  }

  lemma {:induction false} ModifiersAll(s: string)
    ensures Modifiers(s) <==> forall c :: c in s ==> IsModifier(c)
    decreases |s|
  {
    if s != [] {
      ModifiersAll(s[1..]);
      assert forall c :: c in s <==> c == s[0] || c in s[1..];
    }
  }

  /**
   * Position of the closing delimiter `d` at or after `i`: a backslash makes
   * the character after it part of the body, whatever it is.
   */
  function CloseAt(p: string, d: char, i: nat): (r: Option<nat>)
    ensures r.Some? ==> i <= r.value < |p| && p[r.value] == d
    decreases |p| - i
  {
    if i >= |p| then None
    else if p[i] == '\\' && i + 1 < |p| then CloseAt(p, d, i + 2)
    else if p[i] == d then Some(i)
    else CloseAt(p, d, i + 1)
  }

  /**
   * The delimiter split `preg_match` performs: the first character is the
   * delimiter (not alphanumeric, not a backslash), the body runs to the next
   * unescaped copy of it, and what follows are modifiers, each of which must be
   * known. Bracket-style delimiters never occur in the router's patterns.
   */
  function Delimit(p: string): Option<(string, string)> {
    if p == [] || IsAlnum(p[0]) || p[0] == '\\' || IsOpeningBracket(p[0]) then None
    else match CloseAt(p, p[0], 1)
      case None => None
      case Some(e) =>
        var body := p[1..e];
        var mods := p[e + 1..];
        assert p == [p[0]] + body + [p[0]] + mods;
        if Modifiers(mods) then Some((body, mods)) else None
  }

  /** A split puts the body between two copies of the delimiter, and the modifiers after them. */
  lemma DelimitSplits(p: string)
    requires Delimit(p).Some?
    ensures |p| >= 2 && p == [p[0]] + Delimit(p).value.0 + [p[0]] + Delimit(p).value.1
    ensures Modifiers(Delimit(p).value.1)
  {
    var e := CloseAt(p, p[0], 1).value;
    assert p == [p[0]] + p[1..e] + [p[0]] + p[e + 1..];
  }

  /** `preg_match($pattern, $subject, $matches)`: None when it returns 0 or false. */
  function PregMatch(engine: Engine, pattern: string, subject: string): (r: Option<seq<string>>)
  {
    match Delimit(pattern)
    case None => None
    case Some((body, mods)) => engine.exec(body, mods, subject)
  }

  /** The scan passes over a body free of the delimiter whose escapes are closed. */
  lemma {:induction false} CloseAtPlain(p: string, d: char, i: nat, body: string)
    requires i + |body| < |p| && p[i..i + |body|] == body && p[i + |body|] == d
    requires d != '\\' && d !in body && EscapesClosed(body)
    ensures CloseAt(p, d, i) == Some(i + |body|)
    decreases |body|
  {
    if body != [] {
      if body[0] == '\\' {
        assert p[i] == '\\' && |body| >= 2;
        assert p[i + 2..i + 2 + |body[2..]|] == body[2..];
        CloseAtPlain(p, d, i + 2, body[2..]);
      } else {
        assert p[i] == body[0];
        assert p[i + 1..i + 1 + |body[1..]|] == body[1..];
        CloseAtPlain(p, d, i + 1, body[1..]);
      }
    }
  }

  /** Every backslash in `s` is followed by the character it escapes. */
  predicate EscapesClosed(s: string)
    decreases |s|
  {
    if s == [] then true
    else if s[0] == '\\' then |s| >= 2 && EscapesClosed(s[2..])
    else EscapesClosed(s[1..])
  }

  /** `'/' . $regex . '/'` hands `regex` to the engine when it is free of `/`. */
  lemma SlashFreeReachesEngine(engine: Engine, regex: string, subject: string)
    requires '/' !in regex && EscapesClosed(regex)
    ensures PregMatch(engine, "/" + regex + "/", subject) == engine.exec(regex, "", subject)
  {
    var p := "/" + regex + "/";
    assert p[1..1 + |regex|] == regex;
    CloseAtPlain(p, '/', 1, regex);
    assert p[1 + |regex| + 1..] == "";
  }

  /**
   * The default parameter pattern `([^/]+)` wrapped in `/` never compiles: the
   * slash inside the class closes the pattern and `]` is not a modifier, so
   * `preg_match` fails whatever the engine and the subject.
   */
  lemma DefaultPatternNeverMatches(engine: Engine, subject: string)
    ensures PregMatch(engine, "/([^/]+)/", subject).None?
  {
    var p := "/([^/]+)/";
    assert CloseAt(p, '/', 4) == Some(4);
    assert CloseAt(p, '/', 3) == Some(4);
    assert CloseAt(p, '/', 2) == Some(4);
    assert CloseAt(p, '/', 1) == Some(4);
    assert p[5..][0] == ']' && !IsModifier(']');
  }

  /**
   * Number of `(` that open a capturing group: those not followed by `?`
   * (escapes and character classes are not told apart).
   */
  function Openers(s: string): nat
    decreases |s|
  {
    if s == [] then 0
    else (if s[0] == '(' && (|s| == 1 || s[1] != '?') then 1 else 0) + Openers(s[1..])
  }

  lemma OpenersCons(c: char, s: string)
    ensures Openers([c] + s) == (if c == '(' && (s == [] || s[0] != '?') then 1 else 0) + Openers(s)
  {
    assert ([c] + s)[1..] == s;
  }

  /** Openers add up across a seam where no `(` meets a `?`. */
  lemma {:induction false} OpenersAppend(a: string, b: string)
    requires a == [] || b == [] || a[|a| - 1] != '(' || b[0] != '?'
    ensures Openers(a + b) == Openers(a) + Openers(b)
    decreases |a|
  {
    if a == [] {
      assert a + b == b;
    } else {
      assert a + b == [a[0]] + (a[1..] + b);
      OpenersCons(a[0], a[1..] + b);
      OpenersCons(a[0], a[1..]);
      OpenersAppend(a[1..], b);
    }
  }

  /** A string without `(` opens no group. */
  lemma {:induction false} OpenersNone(s: string)
    requires '(' !in s
    ensures Openers(s) == 0
    decreases |s|
  {
    if s != [] {
      OpenersNone(s[1..]);
    }
  }
}
