/**
 * The controller-namespace check of the router:
 * `preg_match("#^([A-Z][a-z]+(\\)?)+[a-z]+$#", $ns)`, as a finite automaton
 * over the characters, proved equal to the pattern's own structure. As in
 * PCRE without the `D` modifier, the closing `$` also matches before one
 * final newline.
 */
module Namespaces {
  import opened Php

  predicate IsUpper(c: char) {
    'A' <= c <= 'Z'
  }

  predicate IsLower(c: char) {
    'a' <= c <= 'z'
  }

  predicate AllLower(s: string) {
    forall i :: 0 <= i < |s| ==> IsLower(s[i])
  }

  // ---------------------------------------------------------------------------
  // The pattern, read as a grammar

  /** `[a-z]+` */
  predicate LowerPlus(s: string) {
    |s| >= 1 && AllLower(s)
  }

  /** A group `[A-Z][a-z]+(\\)?` starting here, then what may follow a group. */
  predicate Groups(s: string)
    decreases |s|, 0
  {
    s != [] && IsUpper(s[0]) && GroupLower(s[1..])
  }

  /** The `[a-z]+` of a group, from its first letter. */
  predicate GroupLower(s: string)
    decreases |s|, 3
  {
    s != [] && IsLower(s[0]) && AfterLower(s[1..])
  }

  /** After at least one letter of a group: more letters, the optional backslash, or the group's end. */
  predicate AfterLower(s: string)
    decreases |s|, 2
  {
    (s != [] && IsLower(s[0]) && AfterLower(s[1..])) ||
    (s != [] && s[0] == '\\' && AfterGroup(s[1..])) ||
    AfterGroup(s)
  }

  /** After a whole group: another group, or the final `[a-z]+`. */
  predicate AfterGroup(s: string)
    decreases |s|, 1
  {
    Groups(s) || LowerPlus(s)
  }

  // ---------------------------------------------------------------------------
  // The automaton

  datatype State = Start | AfterUpper | OneLower | Lowers | AfterSlash | Tail | Dead

  function Next(q: State, c: char): State {
    match q
    case Start => if IsUpper(c) then AfterUpper else Dead
    case AfterUpper => if IsLower(c) then OneLower else Dead
    case OneLower => if IsLower(c) then Lowers else if IsUpper(c) then AfterUpper else if c == '\\' then AfterSlash else Dead
    case Lowers => if IsLower(c) then Lowers else if IsUpper(c) then AfterUpper else if c == '\\' then AfterSlash else Dead
    case AfterSlash => if IsUpper(c) then AfterUpper else if IsLower(c) then Tail else Dead
    case Tail => if IsLower(c) then Tail else Dead
    case Dead => Dead
  }

  function Run(q: State, s: string): State
    decreases |s|
  {
    if s == [] then q else Run(Next(q, s[0]), s[1..])
  }

  predicate Final(q: State) {
    q == Lowers || q == Tail
  }

  /** The whole of `s` is recognised. */
  predicate Recognized(s: string) {
    Final(Run(Start, s))
  }

  /** `preg_match` of the namespace pattern: the whole string, or all but one final newline. */
  predicate ValidNamespace(s: string) {
    Recognized(s) || (s != [] && s[|s| - 1] == '\n' && Recognized(s[..|s| - 1]))
  }

  /** What the rest of the input must be, from each state, for the whole to be recognised. */
  predicate Lang(q: State, s: string) {
    match q
    case Start => Groups(s)
    case AfterUpper => GroupLower(s)
    case OneLower => AfterLower(s)
    case Lowers => AfterLower(s) || AllLower(s)
    case AfterSlash => AfterGroup(s)
    case Tail => AllLower(s)
    case Dead => false
  }

  lemma AllLowerCons(s: string)
    requires s != []
    ensures AllLower(s) <==> IsLower(s[0]) && AllLower(s[1..])
  {
    if IsLower(s[0]) && AllLower(s[1..]) {
      forall i | 0 <= i < |s| ensures IsLower(s[i]) {
        if i > 0 {
          assert s[i] == s[1..][i - 1];
        }
      }
    }
  }

  /** The empty rest is what `Final` accepts. */
  lemma LangEmpty(q: State)
    ensures Lang(q, "") <==> Final(q)
  {
    assert !Groups("") && !LowerPlus("") && !AfterGroup("") && !AfterLower("");
  }

  /** One character: the automaton's step is the grammar's. */
  lemma {:induction false} LangStep(q: State, s: string)
    requires s != []
    ensures Lang(q, s) <==> Lang(Next(q, s[0]), s[1..])
  {
    var c := s[0];
    AllLowerCons(s);
    match q
    case Start =>
    case AfterUpper =>
    case OneLower =>
      assert AfterGroup(s) <==> (IsUpper(c) && GroupLower(s[1..])) || LowerPlus(s);
    case Lowers =>
      assert AfterGroup(s) <==> (IsUpper(c) && GroupLower(s[1..])) || LowerPlus(s);
    case AfterSlash =>
      assert AfterGroup(s) <==> (IsUpper(c) && GroupLower(s[1..])) || LowerPlus(s);
    case Tail =>
    case Dead =>
  }

  /** The automaton recognises exactly what the grammar derives, from every state. */
  lemma {:induction false} RunLang(q: State, s: string)
    ensures Final(Run(q, s)) <==> Lang(q, s)
    decreases |s|
  {
    if s == [] {
      LangEmpty(q);
    } else {
      LangStep(q, s);
      RunLang(Next(q, s[0]), s[1..]);
    }
  }

  /** The recogniser accepts exactly the strings the pattern `([A-Z][a-z]+(\\)?)+[a-z]+` spells. */
  lemma RecognizedIsPattern(s: string)
    ensures Recognized(s) <==> Groups(s)
  {
    RunLang(Start, s);
  }

  lemma {:induction false} RunAppend(q: State, a: string, b: string)
    ensures Run(q, a + b) == Run(Run(q, a), b)
    decreases |a|
  {
    if a != [] {
      assert (a + b)[0] == a[0] && (a + b)[1..] == a[1..] + b;
      RunAppend(Next(q, a[0]), a[1..], b);
    } else {
      assert a + b == b;
    }
  }

  lemma {:induction false} DeadStays(s: string)
    ensures Run(Dead, s) == Dead
    decreases |s|
  {
    if s != [] {
      DeadStays(s[1..]);
    }
  }

  /**
   * Any character other than a letter or a backslash (a final newline
   * aside) makes the namespace invalid: `Njeaner/Router` is refused.
   */
  lemma ForeignCharRejected(s: string, i: nat)
    requires i < |s| && !IsUpper(s[i]) && !IsLower(s[i]) && s[i] != '\\'
    requires i < |s| - 1 || s[i] != '\n'
    ensures !ValidNamespace(s)
  {
    forall t: string, q: State | i < |t| && t[..i + 1] == s[..i + 1] ensures !Final(Run(q, t)) {
      assert t == t[..i] + ([t[i]] + t[i + 1..]);
      RunAppend(q, t[..i], [t[i]] + t[i + 1..]);
      DeadStays(t[i + 1..]);
      assert Next(Run(q, t[..i]), t[i]) == Dead;
    }
    if s != [] && s[|s| - 1] == '\n' {
      assert i < |s| - 1;
      assert s[..|s| - 1][..i + 1] == s[..i + 1];
    }
  }

  /** A valid namespace is PHP-truthy, so the router passes it on to its routes. */
  lemma ValidIsTruthy(s: string)
    ensures ValidNamespace(s) ==> !EmptyString(s)
  {
    assert !ValidNamespace("") by {
      assert Run(Start, "") == Start;
    }
    assert !ValidNamespace("0") by {
      assert Run(Start, "0") == Dead;
      assert "0"[..0] == "";
    }
  }
}
