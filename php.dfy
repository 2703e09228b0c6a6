/**
 * The few PHP primitives the router relies on: `trim($s, '/')`, `empty()` on
 * strings, `str_replace`, `explode($sep, $s, 2)` and PHP's ordered arrays with
 * string keys (insertion order is kept, assigning an existing key overwrites
 * it in place, `unset` removes it).
 */
module Php {
  import opened Wrappers

  /** `empty($s)` for a string: PHP treats "" and "0" as empty (falsy). */
  predicate EmptyString(s: string) {
    s == "" || s == "0"
  }

  /** Drops every leading '/'. */
  function TrimLeft(s: string): (r: string)
    ensures |r| <= |s|
    ensures r == [] || r[0] != '/'
    decreases |s|
  {
    if s != [] && s[0] == '/' then TrimLeft(s[1..]) else s
  }

  /** What `TrimLeft` keeps is a suffix of its argument. */
  lemma {:induction false} TrimLeftSuffix(s: string)
    ensures TrimLeft(s) == s[|s| - |TrimLeft(s)|..]
    decreases |s|
  {
    if s != [] && s[0] == '/' {
      TrimLeftSuffix(s[1..]);
    }
  }

  /** Drops every trailing '/'. */
  function TrimRight(s: string): (r: string)
    ensures |r| <= |s|
    ensures r == [] || r[|r| - 1] != '/'
    decreases |s|
  {
    if s != [] && s[|s| - 1] == '/' then TrimRight(s[..|s| - 1]) else s
  }

  /** What `TrimRight` keeps is a prefix of its argument. */
  lemma {:induction false} TrimRightPrefix(s: string)
    ensures TrimRight(s) == s[..|TrimRight(s)|]
    decreases |s|
  {
    if s != [] && s[|s| - 1] == '/' {
      TrimRightPrefix(s[..|s| - 1]);
    }
  }

  /** A string with no slash at either end. */
  predicate Trimmed(s: string) {
    s == [] || (s[0] != '/' && s[|s| - 1] != '/')
  }

  /** `trim($s, '/')`: removes all slashes at both ends and nothing else. */
  function TrimSlashes(s: string): (r: string)
    ensures Trimmed(r)
    ensures |r| <= |s|
  {
    var l := TrimLeft(s);
    var r := TrimRight(l);
    TrimRightPrefix(l);
    assert r == [] || r[0] == l[0];
    r
  }

  /** A string with no slash at either end is its own trim. */
  lemma TrimSlashesOfTrimmed(s: string)
    requires Trimmed(s)
    ensures TrimSlashes(s) == s
  {
    assert TrimLeft(s) == s;
    assert TrimRight(s) == s;
  }

  /** Trimming twice is trimming once. */
  lemma TrimSlashesIdempotent(s: string)
    ensures TrimSlashes(TrimSlashes(s)) == TrimSlashes(s)
  {
    TrimSlashesOfTrimmed(TrimSlashes(s));
  }

  /** Slashes before a string are all removed by `TrimLeft`. */
  lemma {:induction false} TrimLeftSlashes(n: nat, s: string)
    requires s == [] || s[0] != '/'
    ensures TrimLeft(Repeat('/', n) + s) == s
    decreases n
  {
    if n > 0 {
      assert Repeat('/', n) + s == ['/'] + (Repeat('/', n - 1) + s);
      TrimLeftSlashes(n - 1, s);
    }
  }

  /** Slashes after a string are all removed by `TrimRight`. */
  lemma {:induction false} TrimRightSlashes(s: string, n: nat)
    requires s == [] || s[|s| - 1] != '/'
    ensures TrimRight(s + Repeat('/', n)) == s
    decreases n
  {
    if n > 0 {
      assert (s + Repeat('/', n))[..|s| + n - 1] == s + Repeat('/', n - 1);
      TrimRightSlashes(s, n - 1);
    }
  }

  /** Slashes added around a trimmed string are removed again. */
  lemma TrimSlashesAround(left: nat, s: string, right: nat)
    requires s != [] && Trimmed(s)
    ensures TrimSlashes(Repeat('/', left) + s + Repeat('/', right)) == s
  {
    assert Repeat('/', left) + s + Repeat('/', right) == Repeat('/', left) + (s + Repeat('/', right));
    TrimLeftSlashes(left, s + Repeat('/', right));
    TrimRightSlashes(s, right);
  }

  function Repeat(c: char, n: nat): (r: string)
    ensures |r| == n && forall i :: 0 <= i < n ==> r[i] == c
  {
    if n == 0 then [] else [c] + Repeat(c, n - 1)
  }

  /** `search` occurs somewhere in `s`. */
  predicate Occurs(search: string, s: string)
    decreases |s|
  {
    search != [] && |s| >= |search| && (s[..|search|] == search || Occurs(search, s[1..]))
  }

  /**
   * `str_replace($search, $replace, $s)`: every non-overlapping occurrence of
   * `search`, scanning left to right, is replaced; an empty `search` leaves `s`.
   */
  function StrReplace(s: string, search: string, replace: string): (r: string)
    decreases |s|
  {
    if search == [] || |s| < |search| then s
    else if s[..|search|] == search then replace + StrReplace(s[|search|..], search, replace)
    else [s[0]] + StrReplace(s[1..], search, replace)
  }

  /** A string in which `search` does not occur is left as it is. */
  lemma {:induction false} StrReplaceAbsent(s: string, search: string, replace: string)
    requires !Occurs(search, s)
    ensures StrReplace(s, search, replace) == s
    decreases |s|
  {
    if search != [] && |s| >= |search| {
      StrReplaceAbsent(s[1..], search, replace);
    }
  }

  /**
   * An occurrence of `search` preceded by text without `search`'s first
   * character is the first one replaced: the text before it is kept and the
   * scan goes on after it.
   */
  lemma {:induction false} StrReplaceSplice(a: string, search: string, replace: string, b: string)
    requires search != [] && search[0] !in a
    ensures StrReplace(a + search + b, search, replace) == a + replace + StrReplace(b, search, replace)
    decreases |a|
  {
    var s := a + search + b;
    if a == [] {
      assert s == search + b;
      assert s[..|search|] == search && s[|search|..] == b;
    } else {
      assert s[0] == a[0] && a[0] != search[0];
      assert s[..|search|] != search by {
        assert s[..|search|][0] == s[0];
      }
      assert s[1..] == a[1..] + search + b;
      assert StrReplace(s, search, replace) == [s[0]] + StrReplace(s[1..], search, replace);
      StrReplaceSplice(a[1..], search, replace, b);
      assert a == [a[0]] + a[1..];
    }
  }

  /** Replacing one character by a string: each copy of `c` grows by |replace| - 1. */
  lemma {:induction false} StrReplaceCharLength(s: string, c: char, replace: string)
    ensures |StrReplace(s, [c], replace)| == |s| + Count(s, c) * (|replace| - 1)
    decreases |s|
  {
    if s != [] {
      StrReplaceCharLength(s[1..], c, replace);
      assert s[..1] == [s[0]];
    }
  }

  /** Number of copies of `c` in `s`. */
  function Count(s: string, c: char): nat
    decreases |s|
  {
    if s == [] then 0 else (if s[0] == c then 1 else 0) + Count(s[1..], c)
  }

  /** Index of the first `c` in `s` (`strpos`), or |s| when there is none. */
  function IndexOf(s: string, c: char): (i: nat)
    ensures i <= |s| && c !in s[..i]
    ensures i < |s| <==> c in s
    ensures i < |s| ==> s[i] == c
    decreases |s|
  {
    if s == [] then 0 else if s[0] == c then 0 else 1 + IndexOf(s[1..], c)
  }

  /**
   * `explode($sep, $s, 2)` when `$sep` occurs in `$s`: the text before the first
   * separator and everything after it.
   */
  function SplitFirst(s: string, sep: char): (parts: (string, string))
    requires sep in s
    ensures sep !in parts.0
    ensures parts.0 + [sep] + parts.1 == s
  {
    var i := IndexOf(s, sep);
    assert s == s[..i] + [sep] + s[i + 1..];
    (s[..i], s[i + 1..])
  }

  /** The split is the only one with no separator before it. */
  lemma SplitFirstUnique(before: string, after: string, sep: char)
    requires sep !in before
    ensures SplitFirst(before + [sep] + after, sep) == (before, after)
  {
    var s := before + [sep] + after;
    assert s[|before|] == sep;
    assert s[..|before|] == before;
    assert s[|before| + 1..] == after;
  }

  // ---------------------------------------------------------------------------
  // PHP arrays with string keys, as sequences of pairs in insertion order.

  type OMap<V> = seq<(string, V)>

  function Keys<V>(m: OMap<V>): (ks: seq<string>)
    ensures |ks| == |m|
    ensures forall i :: 0 <= i < |m| ==> ks[i] == m[i].0
    decreases |m|
  {
    if m == [] then [] else [m[0].0] + Keys(m[1..])
  }

  predicate HasKey<V>(m: OMap<V>, k: string) {
    k in Keys(m)
  }

  /** No key appears twice, as in every PHP array. */
  predicate UniqueKeys<V>(m: OMap<V>) {
    forall i, j :: 0 <= i < j < |m| ==> m[i].0 != m[j].0
  }

  /** `$m[$k] ?? null`. */
  function Get<V>(m: OMap<V>, k: string): (r: Option<V>)
    ensures r.Some? <==> HasKey(m, k)
    ensures r.Some? ==> exists i :: 0 <= i < |m| && m[i] == (k, r.value)
    decreases |m|
  {
    if m == [] then None
    else if m[0].0 == k then Some(m[0].1)
    else
      assert forall i :: 1 <= i < |m| ==> m[i] == m[1..][i - 1];
      Get(m[1..], k)
  }

  /** With unique keys, the pair at position i is what the lookup of its key finds. */
  lemma {:induction false} GetAt<V>(m: OMap<V>, i: nat)
    requires UniqueKeys(m) && i < |m|
    ensures Get(m, m[i].0) == Some(m[i].1)
    decreases i
  {
    if i > 0 {
      assert m[0].0 != m[i].0;
      assert m[1..][i - 1] == m[i];
      GetAt(m[1..], i - 1);
    }
  }

  /**
   * `$m[$k] = $v`: an existing key keeps its position and takes the new value;
   * a new key is appended.
   */
  function Put<V>(m: OMap<V>, k: string, v: V): (r: OMap<V>)
    ensures Keys(r) == if HasKey(m, k) then Keys(m) else Keys(m) + [k]
    decreases |m|
  {
    if m == [] then [(k, v)]
    else if m[0].0 == k then [(k, v)] + m[1..]
    else
      var rest := Put(m[1..], k, v);
      assert Keys([m[0]] + rest) == [m[0].0] + Keys(rest);
      assert Keys(m) == [m[0].0] + Keys(m[1..]);
      [m[0]] + rest
  }

  /** After `$m[$k] = $v`, `$m[$k]` is `v` and every other key reads as before. */
  lemma {:induction false} PutGet<V>(m: OMap<V>, k: string, v: V, k': string)
    ensures Get(Put(m, k, v), k') == if k' == k then Some(v) else Get(m, k')
    decreases |m|
  {
    if m != [] && m[0].0 != k {
      var r := Put(m, k, v);
      assert r[1..] == Put(m[1..], k, v);
      PutGet(m[1..], k, v, k');
    }
  }

  /** Assignment keeps the keys of a PHP array distinct. */
  lemma PutUnique<V>(m: OMap<V>, k: string, v: V)
    requires UniqueKeys(m)
    ensures UniqueKeys(Put(m, k, v))
  {
    var r := Put(m, k, v);
    var ks := Keys(r);
    if HasKey(m, k) {
      assert ks == Keys(m);
    } else {
      assert ks == Keys(m) + [k];
      forall i, j | 0 <= i < j < |r| ensures r[i].0 != r[j].0 {
        assert ks[i] == r[i].0 && ks[j] == r[j].0;
        if j == |m| {
          assert ks[i] == Keys(m)[i];
        } else {
          assert ks[i] == Keys(m)[i] == m[i].0 && ks[j] == m[j].0;
        }
      }
    }
  }

  /** `unset($m[$k])`: removes the key and keeps the order of the others. */
  function Unset<V>(m: OMap<V>, k: string): (r: OMap<V>)
    ensures !HasKey(r, k)
    ensures forall p :: p in r ==> p in m
    decreases |m|
  {
    if m == [] then []
    else if m[0].0 == k then Unset(m[1..], k)
    else
      var rest := Unset(m[1..], k);
      assert Keys([m[0]] + rest) == [m[0].0] + Keys(rest);
      [m[0]] + rest
  }

  /** `unset` leaves every other key reading as before. */
  lemma {:induction false} UnsetGet<V>(m: OMap<V>, k: string, k': string)
    requires k' != k
    ensures Get(Unset(m, k), k') == Get(m, k')
    decreases |m|
  {
    if m != [] {
      UnsetGet(m[1..], k, k');
      if m[0].0 != k {
        assert Unset(m, k)[1..] == Unset(m[1..], k);
      }
    }
  }

  /** `ks` with every copy of `k` removed. */
  function Without(ks: seq<string>, k: string): seq<string>
    decreases |ks|
  {
    if ks == [] then [] else (if ks[0] == k then [] else [ks[0]]) + Without(ks[1..], k)
  }
}
