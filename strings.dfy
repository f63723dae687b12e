/**
 * The part of Kotlin's string library that the modelled code relies on:
 * prefix and suffix tests and removal, trimming by a set of characters,
 * first-index search for a character or a substring, `in` (contains) and
 * `substringAfter`. Strings are sequences of characters.
 */
module Strings {

  /** The characters for which Kotlin's `Char.isWhitespace()` holds on the JVM, on JDK 9
      and later: `Character.isWhitespace` or `Character.isSpaceChar` (JDK 8 also counts
      U+180E, a space separator in its Unicode version). */
  const Whitespace: set<char> := {
    ' ', '\t', '\n', '\U{000B}', '\U{000C}', '\r',
    '\U{001C}', '\U{001D}', '\U{001E}', '\U{001F}',
    '\U{00A0}', '\U{1680}',
    '\U{2000}', '\U{2001}', '\U{2002}', '\U{2003}', '\U{2004}', '\U{2005}',
    '\U{2006}', '\U{2007}', '\U{2008}', '\U{2009}', '\U{200A}',
    '\U{2028}', '\U{2029}', '\U{202F}', '\U{205F}', '\U{3000}'
  }

  predicate StartsWith(s: string, prefix: string) {
    |prefix| <= |s| && s[..|prefix|] == prefix
  }

  predicate EndsWith(s: string, suffix: string) {
    |suffix| <= |s| && s[|s| - |suffix|..] == suffix
  }

  /** `s` starts with `prefix` exactly when it is `prefix` followed by something. */
  lemma StartsWithConcat(s: string, prefix: string)
    ensures StartsWith(s, prefix) <==> exists rest :: s == prefix + rest
  {
    if StartsWith(s, prefix) {
      assert s == prefix + s[|prefix|..];
    }
    forall rest | s == prefix + rest ensures StartsWith(s, prefix) {
      assert s[..|prefix|] == prefix;
    }
  }

  /** `s` ends with `suffix` exactly when it is something followed by `suffix`. */
  lemma EndsWithConcat(s: string, suffix: string)
    ensures EndsWith(s, suffix) <==> exists rest :: s == rest + suffix
  {
    if EndsWith(s, suffix) {
      assert s == s[..|s| - |suffix|] + suffix;
    }
    forall rest | s == rest + suffix ensures EndsWith(s, suffix) {
      assert s[|s| - |suffix|..] == suffix;
    }
  }

  /** `sub` occurs in `s` starting at index `i`. */
  predicate OccursAt(s: string, sub: string, i: int) {
    0 <= i && i + |sub| <= |s| && s[i..i + |sub|] == sub
  }

  /** `s.removePrefix(prefix)` */
  function RemovePrefix(s: string, prefix: string): (r: string)
    ensures StartsWith(s, prefix) ==> prefix + r == s
    ensures !StartsWith(s, prefix) ==> r == s
  {
    if StartsWith(s, prefix) then
      assert s == s[..|prefix|] + s[|prefix|..];
      s[|prefix|..]
    else s
  }

  /** `s.removeSuffix(suffix)` */
  function RemoveSuffix(s: string, suffix: string): (r: string)
    ensures EndsWith(s, suffix) ==> r + suffix == s
    ensures !EndsWith(s, suffix) ==> r == s
  {
    if EndsWith(s, suffix) then
      assert s == s[..|s| - |suffix|] + s[|s| - |suffix|..];
      s[..|s| - |suffix|]
    else s
  }

  /** The number of leading characters of `s` that are in `cs`. */
  function LeadingCount(s: string, cs: set<char>): (n: nat)
    ensures n <= |s|
    ensures forall k :: 0 <= k < n ==> s[k] in cs
    ensures n == |s| || s[n] !in cs
  {
    if |s| > 0 && s[0] in cs then
      var m := LeadingCount(s[1..], cs);
      assert forall k :: 1 <= k <= m ==> s[k] == s[1..][k - 1];
      m + 1
    else 0
  }

  /** The number of trailing characters of `s` that are in `cs`. */
  function TrailingCount(s: string, cs: set<char>): (n: nat)
    ensures n <= |s|
    ensures forall k :: |s| - n <= k < |s| ==> s[k] in cs
    ensures n == |s| || s[|s| - n - 1] !in cs
  {
    if |s| > 0 && s[|s| - 1] in cs then
      var m := TrailingCount(s[..|s| - 1], cs);
      assert forall k :: 0 <= k < |s| - 1 ==> s[k] == s[..|s| - 1][k];
      m + 1
    else 0
  }

  /** `s.trimStart { it in cs }`: drops the longest prefix made of characters of `cs`. */
  function TrimStart(s: string, cs: set<char>): (r: string)
    ensures |r| <= |s| && r == s[|s| - |r|..]
    ensures forall k :: 0 <= k < |s| - |r| ==> s[k] in cs
    ensures r == [] || r[0] !in cs
  {
    s[LeadingCount(s, cs)..]
  }

  /** `s.trimEnd { it in cs }`: drops the longest suffix made of characters of `cs`. */
  function TrimEnd(s: string, cs: set<char>): (r: string)
    ensures |r| <= |s| && r == s[..|r|]
    ensures forall k :: |r| <= k < |s| ==> s[k] in cs
    ensures r == [] || r[|r| - 1] !in cs
  {
    s[..|s| - TrailingCount(s, cs)]
  }

  /** `r` is the window `s[a..b]` and every character outside the window is in `cs`,
      while the window neither starts nor ends with one. */
  ghost predicate TrimWindow(s: string, r: string, cs: set<char>, a: nat, b: nat) {
    a <= b <= |s| && r == s[a..b] &&
    (forall k :: 0 <= k < a ==> s[k] in cs) &&
    (forall k :: b <= k < |s| ==> s[k] in cs) &&
    (r == [] || (r[0] !in cs && r[|r| - 1] !in cs))
  }

  /** `r` is `s` with its leading and trailing characters of `cs` removed:
      an independent statement of what trimming produces. */
  ghost predicate TrimmedOf(s: string, r: string, cs: set<char>) {
    exists a: nat, b: nat :: TrimWindow(s, r, cs, a, b)
  }

  /** `s.trim { it in cs }` */
  function Trim(s: string, cs: set<char>): (r: string)
    ensures r == [] || (r[0] !in cs && r[|r| - 1] !in cs)
    ensures TrimmedOf(s, r, cs)
  {
    var a := LeadingCount(s, cs);
    var t := s[a..];
    var e := TrailingCount(t, cs);
    var r := t[..|t| - e];
    assert r == s[a..|s| - e];
    assert forall k :: |s| - e <= k < |s| ==> s[k] == t[k - a];
    assert TrimWindow(s, r, cs, a, |s| - e);
    r
  }

  /** Trimming both ends is trimming the end of what trimming the start leaves. */
  lemma TrimIsTrimEndOfTrimStart(s: string, cs: set<char>)
    ensures Trim(s, cs) == TrimEnd(TrimStart(s, cs), cs)
  {
    assert TrimStart(s, cs) == s[LeadingCount(s, cs)..];
  }

  lemma {:induction false} TrimWindowUnique(s: string, r1: string, r2: string, cs: set<char>,
                                            a1: nat, b1: nat, a2: nat, b2: nat)
    requires TrimWindow(s, r1, cs, a1, b1) && TrimWindow(s, r2, cs, a2, b2)
    ensures r1 == r2
  {
    // The first and last characters of a non-empty window are the ones
    // outside `cs`; they fix where each window starts and ends.
    assert r1 != [] ==> s[a1] == r1[0] && s[b1 - 1] == r1[|r1| - 1];
    assert r2 != [] ==> s[a2] == r2[0] && s[b2 - 1] == r2[|r2| - 1];
  }

  /** Trimming has exactly one result, so `TrimmedOf` pins `Trim` down. */
  lemma TrimmedOfUnique(s: string, r1: string, r2: string, cs: set<char>)
    requires TrimmedOf(s, r1, cs) && TrimmedOf(s, r2, cs)
    ensures r1 == r2
  {
    var a1: nat, b1: nat :| TrimWindow(s, r1, cs, a1, b1);
    var a2: nat, b2: nat :| TrimWindow(s, r2, cs, a2, b2);
    TrimWindowUnique(s, r1, r2, cs, a1, b1, a2, b2);
  }

  /** Two indices of `c` that both have no earlier `c` before them are the same index. */
  lemma FirstIndexUnique(s: string, c: char, i: nat, j: nat)
    requires i < |s| && s[i] == c && c !in s[..i]
    requires j < |s| && s[j] == c && c !in s[..j]
    ensures i == j
  {
    assert forall k :: 0 <= k < i ==> s[..i][k] == s[k];
    assert forall k :: 0 <= k < j ==> s[..j][k] == s[k];
  }

  /** `s.indexOf(c)`: the first index of `c`, or -1. */
  function IndexOfChar(s: string, c: char): (r: int)
    ensures -1 <= r < |s|
    ensures r == -1 <==> c !in s
    ensures r >= 0 ==> s[r] == c && c !in s[..r]
  {
    if |s| == 0 then -1
    else if s[0] == c then 0
    else
      var k := IndexOfChar(s[1..], c);
      assert s == [s[0]] + s[1..];
      if k == -1 then -1
      else
        assert s[..k + 1] == [s[0]] + s[1..][..k];
        k + 1
  }

  /** An occurrence at `i` in `s` is one at `i - 1` in its tail. */
  lemma OccursAtShift(s: string, sub: string, i: int)
    requires 1 <= i <= |s|
    ensures OccursAt(s, sub, i) <==> OccursAt(s[1..], sub, i - 1)
  {
    if i + |sub| <= |s| {
      assert s[1..][i - 1..i - 1 + |sub|] == s[i..i + |sub|];
    }
  }

  /** `s.indexOf(sub)`: the first index at which `sub` occurs, or -1
      (an empty `sub` occurs at 0). */
  function IndexOf(s: string, sub: string): (r: int)
    ensures -1 <= r <= |s|
    ensures r == -1 <==> forall i :: 0 <= i <= |s| ==> !OccursAt(s, sub, i)
    ensures r >= 0 ==> OccursAt(s, sub, r) && forall i :: 0 <= i < r ==> !OccursAt(s, sub, i)
  {
    if StartsWith(s, sub) then
      assert OccursAt(s, sub, 0);
      0
    else if |s| == 0 then -1
    else
      var k := IndexOf(s[1..], sub);
      assert forall i :: 1 <= i <= |s| ==> (OccursAt(s, sub, i) <==> OccursAt(s[1..], sub, i - 1)) by {
        forall i | 1 <= i <= |s| ensures OccursAt(s, sub, i) <==> OccursAt(s[1..], sub, i - 1) {
          OccursAtShift(s, sub, i);
        }
      }
      if k == -1 then -1
      else
        assert OccursAt(s, sub, k + 1);
        k + 1
  }

  /** Kotlin's `sub in s` on strings: `s.indexOf(sub) >= 0`. */
  predicate Contains(s: string, sub: string) {
    IndexOf(s, sub) >= 0
  }

  lemma ContainsIff(s: string, sub: string)
    ensures Contains(s, sub) <==> exists i :: 0 <= i <= |s| && OccursAt(s, sub, i)
  {
  }

  /** `s.substringAfter(delimiter)`: the text after the first occurrence of
      `delimiter`, or all of `s` when it does not occur. */
  function SubstringAfter(s: string, delimiter: string): (r: string)
    ensures |r| <= |s| && r == s[|s| - |r|..]
    ensures StartsWith(s, delimiter) ==> r == s[|delimiter|..]
    ensures (forall i :: 0 <= i <= |s| ==> !OccursAt(s, delimiter, i)) ==> r == s
    ensures IndexOf(s, delimiter) >= 0 ==> r == s[IndexOf(s, delimiter) + |delimiter|..]
  {
    var index := IndexOf(s, delimiter);
    assert StartsWith(s, delimiter) ==> OccursAt(s, delimiter, 0);
    if index == -1 then s else s[index + |delimiter|..]
  }

  /** Trimming the tail `s[n..]` of `s` leaves a suffix of `s` whose dropped part,
      from `n` on, is made of characters of `cs`. */
  lemma TrimStartOfTail(s: string, n: nat, cs: set<char>)
    requires n <= |s|
    ensures var r := TrimStart(s[n..], cs);
            n + |r| <= |s| && r == s[|s| - |r|..] &&
            (forall k :: n <= k < |s| - |r| ==> s[k] in cs) &&
            (r == [] || r[0] !in cs)
  {
    var after := s[n..];
    var r := TrimStart(after, cs);
    TailOfTail(s, n, |after| - |r|);
    forall k | n <= k < |s| - |r| ensures s[k] in cs {
      assert s[k] == after[k - n];
    }
  }

  lemma TailOfTail(s: string, n: nat, m: nat)
    requires n + m <= |s|
    ensures s[n..][m..] == s[n + m..]
  {
  }

  /** What follows a prefix, with leading characters of `cs` dropped, is a suffix of `s`
      separated from the prefix only by characters of `cs`. */
  lemma TrimStartAfterPrefix(s: string, prefix: string, cs: set<char>)
    requires StartsWith(s, prefix)
    ensures var r := TrimStart(SubstringAfter(s, prefix), cs);
            |prefix| + |r| <= |s| && r == s[|s| - |r|..] &&
            (forall k :: |prefix| <= k < |s| - |r| ==> s[k] in cs) &&
            (r == [] || r[0] !in cs)
  {
    assert SubstringAfter(s, prefix) == s[|prefix|..];
    TrimStartOfTail(s, |prefix|, cs);
  }

  /** `s.isBlank()`: every character is whitespace. */
  predicate IsBlank(s: string) {
    forall k :: 0 <= k < |s| ==> s[k] in Whitespace
  }

  /** A string is blank exactly when trimming its whitespace leaves nothing. */
  lemma IsBlankIff(s: string)
    ensures IsBlank(s) <==> Trim(s, Whitespace) == []
  {
    var r := Trim(s, Whitespace);
    if IsBlank(s) {
      assert LeadingCount(s, Whitespace) == |s|;
    }
    if r == [] {
      var a: nat, b: nat :| TrimWindow(s, r, Whitespace, a, b);
      assert a == b;
    }
  }
}
