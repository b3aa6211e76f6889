/** The small pieces of JavaScript semantics the server code leans on:
    `undefined` as an optional value, truthiness of strings and numbers,
    `Array.prototype.filter(Boolean)`, `String.prototype.trim`, and the
    line terminators that a RegExp `.` refuses to match. */
module Js {

  /** A JavaScript value that may be `undefined`. */
  datatype Option<+T> = None | Some(value: T)

  /** A possibly-undefined string is truthy when present and non-empty. */
  predicate TruthyString(s: Option<string>) {
    s.Some? && s.value != ""
  }

  /** A possibly-undefined number is truthy when present and not zero
      (NaN is not modelled). */
  predicate TruthyNumber(n: Option<int>) {
    n.Some? && n.value != 0
  }

  /** `xs.filter(Boolean)`: drops the undefined entries and the present
      entries that are falsy. */
  function FilterTruthy<T(!new)>(xs: seq<Option<T>>, truthy: T -> bool): (r: seq<T>)
    ensures |r| <= |xs|
    ensures forall x :: x in r <==> Some(x) in xs && truthy(x)
  {
    if |xs| == 0 then []
    else
      var rest := FilterTruthy(xs[1..], truthy);
      assert forall x :: Some(x) in xs <==> Some(x) == xs[0] || Some(x) in xs[1..];
      if xs[0].Some? && truthy(xs[0].value) then [xs[0].value] + rest else rest
  }

  /** ECMAScript LineTerminator code points: LF, CR, LINE SEPARATOR, PARAGRAPH SEPARATOR. */
  const LineTerminators: seq<char> := ['\n', '\r', '\U{2028}', '\U{2029}']

  /** ECMAScript WhiteSpace code points: TAB, VT, FF, ZWNBSP and every space
      separator (category Zs) of Unicode: SPACE, NO-BREAK SPACE, OGHAM SPACE
      MARK, U+2000 to U+200A, NARROW NO-BREAK SPACE, MEDIUM MATHEMATICAL SPACE
      and IDEOGRAPHIC SPACE. */
  const WhiteSpace: seq<char> := [
    '\t', '\U{000B}', '\U{000C}', '\U{FEFF}', ' ', '\U{00A0}', '\U{1680}',
    '\U{2000}', '\U{2001}', '\U{2002}', '\U{2003}', '\U{2004}', '\U{2005}',
    '\U{2006}', '\U{2007}', '\U{2008}', '\U{2009}', '\U{200A}',
    '\U{202F}', '\U{205F}', '\U{3000}']

  /** Membership in a character table, looked up one entry at a time. */
  predicate InTable(c: char, table: seq<char>)
    decreases |table|
  {
    |table| > 0 && (c == table[0] || InTable(c, table[1..]))
  }

  lemma {:induction false} InTableIff(c: char, table: seq<char>)
    ensures InTable(c, table) <==> c in table
    decreases |table|
  {
    if |table| > 0 {
      InTableIff(c, table[1..]);
      assert c in table <==> c == table[0] || c in table[1..];
    }
  }

  predicate IsLineTerminator(c: char) {
    InTable(c, LineTerminators)
  }

  /** The characters `String.prototype.trim` strips from both ends. */
  predicate IsTrimmable(c: char) {
    InTable(c, WhiteSpace + LineTerminators)
  }

  predicate AllTrimmable(s: string) {
    forall i :: 0 <= i < |s| ==> IsTrimmable(s[i])
  }

  predicate NoLineTerminator(s: string) {
    forall i :: 0 <= i < |s| ==> !IsLineTerminator(s[i])
  }

  /** The end of the run of trimmable characters that starts at `i`. */
  function SkipForward(s: string, i: nat): (n: nat)
    requires i <= |s|
    ensures i <= n <= |s|
    ensures forall k :: i <= k < n ==> IsTrimmable(s[k])
    ensures n == |s| || !IsTrimmable(s[n])
    decreases |s| - i
  {
    if i < |s| && IsTrimmable(s[i]) then SkipForward(s, i + 1) else i
  }

  /** The start of the run of trimmable characters that ends at `j`, not
      going below `lo`. */
  function SkipBackward(s: string, lo: nat, j: nat): (n: nat)
    requires lo <= j <= |s|
    ensures lo <= n <= j
    ensures forall k :: n <= k < j ==> IsTrimmable(s[k])
    ensures n == lo || !IsTrimmable(s[n - 1])
    decreases j
  {
    if j > lo && IsTrimmable(s[j - 1]) then SkipBackward(s, lo, j - 1) else j
  }

  /** `r` sits at offset `i` of `s`, and everything of `s` around it is
      trimmable. */
  predicate InfixAt(s: string, r: string, i: nat) {
    && i + |r| <= |s| && r == s[i..i + |r|]
    && (forall k :: 0 <= k < i ==> IsTrimmable(s[k]))
    && (forall k :: i + |r| <= k < |s| ==> IsTrimmable(s[k]))
  }

  /** `s.trim()`: the infix of `s` left once the trimmable characters at
      both ends are gone; it neither starts nor ends with one. */
  function Trim(s: string): (r: string)
    ensures |r| <= |s|
    ensures exists i: nat :: InfixAt(s, r, i)
    ensures r == [] || (!IsTrimmable(r[0]) && !IsTrimmable(r[|r| - 1]))
  {
    var a := SkipForward(s, 0);
    var b := SkipBackward(s, a, |s|);
    assert InfixAt(s, s[a..b], a);
    s[a..b]
  }

  /** A text is blank for `!text.trim()` exactly when every character of it
      is trimmable. */
  lemma {:induction false} TrimBlankIff(s: string)
    ensures Trim(s) == [] <==> AllTrimmable(s)
  {
    if Trim(s) == [] {
      var i: nat :| InfixAt(s, [], i);
    }
    if AllTrimmable(s) {
      assert SkipForward(s, 0) == |s|;
    }
  }

  /** Trimming twice is trimming once. */
  lemma TrimIdempotent(s: string)
    ensures Trim(Trim(s)) == Trim(s)
  {
    var r := Trim(s);
    if r != [] {
      assert SkipForward(r, 0) == 0;
      assert SkipBackward(r, 0, |r|) == |r|;
    }
  }

  predicate StartsWith(s: string, prefix: string) {
    |prefix| <= |s| && s[..|prefix|] == prefix
  }

  predicate EndsWith(s: string, suffix: string) {
    |suffix| <= |s| && s[|s| - |suffix|..] == suffix
  }
}
