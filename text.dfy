/**
 * The parts of .NET's string and character library that the validators use:
 * the character classes behind char.IsWhiteSpace, char.IsUpper, char.IsLower,
 * char.IsDigit and the regular-expression classes \s, \d and [A-Za-z], and the
 * string operations IsNullOrWhiteSpace, Trim and LINQ's Any.
 *
 * White space is modelled exactly. Upper case, lower case and decimal digits
 * are restricted to ASCII (the .NET predicates consult the Unicode category
 * tables, which are not part of this model).
 */
module Text {

  /** char.IsWhiteSpace, and the regex class \s, which holds the same characters:
      U+0009..U+000D, U+0085 and the Unicode separators (Zs, Zl, Zp). */
  predicate IsWhiteSpace(c: char) {
    || ('\t' <= c <= '\r')
    || c == ' '
    || c == '\U{85}'
    || c == '\U{A0}'
    || c == '\U{1680}'
    || ('\U{2000}' <= c <= '\U{200A}')
    || c == '\U{2028}'
    || c == '\U{2029}'
    || c == '\U{202F}'
    || c == '\U{205F}'
    || c == '\U{3000}'
  }

  /** char.IsUpper, restricted to ASCII. */
  predicate IsUpper(c: char) {
    'A' <= c <= 'Z'
  }

  /** char.IsLower, restricted to ASCII. */
  predicate IsLower(c: char) {
    'a' <= c <= 'z'
  }

  /** char.IsDigit and the regex class \d, restricted to ASCII. */
  predicate IsDigit(c: char) {
    '0' <= c <= '9'
  }

  /** Every character is a digit (the regex run \d+). */
  predicate AllDigits(s: string) {
    forall i :: 0 <= i < |s| ==> IsDigit(s[i])
  }

  /** The regex class [A-Za-z] (exact: it is an ASCII class in .NET too). */
  predicate IsAsciiLetter(c: char) {
    ('A' <= c <= 'Z') || ('a' <= c <= 'z')
  }

  /** LINQ's Enumerable.Any(source, predicate) over the characters of a string. */
  function Any(s: string, p: char -> bool): (r: bool)
    ensures r <==> exists i :: 0 <= i < |s| && p(s[i])
  {
    if s == [] then false
    else if p(s[0]) then true
    else
      var rest := Any(s[1..], p);
      assert forall i :: 1 <= i < |s| ==> s[i] == s[1..][i - 1];
      rest
  }

  /** string.IsNullOrWhiteSpace on a non-null string: every character is white space. */
  predicate IsNullOrWhiteSpace(s: string) {
    forall i :: 0 <= i < |s| ==> IsWhiteSpace(s[i])
  }

  /** Number of white-space characters at the start of s. */
  function LeadingWhiteSpace(s: string): (n: nat)
    ensures n <= |s|
  {
    if s != [] && IsWhiteSpace(s[0]) then 1 + LeadingWhiteSpace(s[1..]) else 0
  }

  lemma {:induction false} LeadingWhiteSpaceBlank(s: string)
    ensures IsNullOrWhiteSpace(s[..LeadingWhiteSpace(s)])
  {
    if s != [] && IsWhiteSpace(s[0]) {
      var n := LeadingWhiteSpace(s[1..]);
      LeadingWhiteSpaceBlank(s[1..]);
      assert s[..1 + n] == [s[0]] + s[1..][..n];
    }
  }

  lemma {:induction false} LeadingWhiteSpaceStops(s: string)
    ensures LeadingWhiteSpace(s) < |s| ==> !IsWhiteSpace(s[LeadingWhiteSpace(s)])
  {
    if s != [] && IsWhiteSpace(s[0]) {
      LeadingWhiteSpaceStops(s[1..]);
    }
  }

  /** Number of white-space characters at the end of s. */
  function TrailingWhiteSpace(s: string): (n: nat)
    ensures n <= |s|
  {
    if s != [] && IsWhiteSpace(s[|s| - 1]) then 1 + TrailingWhiteSpace(s[..|s| - 1]) else 0
  }

  lemma {:induction false} TrailingWhiteSpaceBlank(s: string)
    ensures forall k :: |s| - TrailingWhiteSpace(s) <= k < |s| ==> IsWhiteSpace(s[k])
  {
    if s != [] && IsWhiteSpace(s[|s| - 1]) {
      var init := s[..|s| - 1];
      TrailingWhiteSpaceBlank(init);
      forall k | |s| - TrailingWhiteSpace(s) <= k < |s| - 1
        ensures IsWhiteSpace(s[k])
      {
        assert s[k] == init[k];
      }
    }
  }

  lemma {:induction false} TrailingWhiteSpaceStops(s: string)
    ensures TrailingWhiteSpace(s) < |s| ==> !IsWhiteSpace(s[|s| - 1 - TrailingWhiteSpace(s)])
  {
    if s != [] && IsWhiteSpace(s[|s| - 1]) {
      var init := s[..|s| - 1];
      var n := TrailingWhiteSpace(init);
      TrailingWhiteSpaceStops(init);
      if 1 + n < |s| {
        assert s[|s| - 1 - (1 + n)] == init[|init| - 1 - n];
      }
    }
  }

  /** string.Trim(): the longest infix of s that neither starts nor ends with
      white space, everything around it being white space. */
  function Trim(s: string): (r: string)
    ensures r == [] || (!IsWhiteSpace(r[0]) && !IsWhiteSpace(r[|r| - 1]))
    ensures exists p, q :: s == p + r + q && IsNullOrWhiteSpace(p) && IsNullOrWhiteSpace(q)
  {
    var t := s[LeadingWhiteSpace(s)..];
    var r := t[..|t| - TrailingWhiteSpace(t)];
    TrimParts(s, t, r);
    r
  }

  lemma TrimParts(s: string, t: string, r: string)
    requires t == s[LeadingWhiteSpace(s)..] && r == t[..|t| - TrailingWhiteSpace(t)]
    ensures r == [] || (!IsWhiteSpace(r[0]) && !IsWhiteSpace(r[|r| - 1]))
    ensures s == s[..LeadingWhiteSpace(s)] + r + t[|r|..]
    ensures IsNullOrWhiteSpace(s[..LeadingWhiteSpace(s)]) && IsNullOrWhiteSpace(t[|r|..])
  {
    TrimEdges(s, t, r);
    LeadingWhiteSpaceBlank(s);
    TrailingWhiteSpaceBlank(t);
    SplitAt(s, LeadingWhiteSpace(s));
    SplitAt(t, |r|);
    BlankSuffix(t, |r|);
  }

  lemma TrimEdges(s: string, t: string, r: string)
    requires t == s[LeadingWhiteSpace(s)..] && r == t[..|t| - TrailingWhiteSpace(t)]
    ensures r == [] || (!IsWhiteSpace(r[0]) && !IsWhiteSpace(r[|r| - 1]))
  {
    if r != [] {
      LeadingWhiteSpaceStops(s);
      TrailingWhiteSpaceStops(t);
      assert r[0] == s[LeadingWhiteSpace(s)];
      assert r[|r| - 1] == t[|t| - 1 - TrailingWhiteSpace(t)];
    }
  }

  /** A string is blank exactly when it trims to the empty string. */
  lemma TrimBlank(s: string)
    ensures IsNullOrWhiteSpace(s) <==> Trim(s) == []
  {
    var p, q :| s == p + Trim(s) + q && IsNullOrWhiteSpace(p) && IsNullOrWhiteSpace(q);
    if Trim(s) != [] {
      assert s[|p|] == Trim(s)[0];
    } else {
      assert s == p + q;
      assert forall i :: |p| <= i < |s| ==> s[i] == q[i - |p|];
    }
  }

  /** Trim's contract determines its result: any infix with blank margins
      whose ends are not white space is the trim. */
  lemma TrimUnique(s: string, p: string, r: string, q: string)
    requires s == p + r + q && IsNullOrWhiteSpace(p) && IsNullOrWhiteSpace(q)
    requires r == [] || (!IsWhiteSpace(r[0]) && !IsWhiteSpace(r[|r| - 1]))
    ensures Trim(s) == r
  {
    if r == [] {
      assert s == p + q;
      assert forall i :: |p| <= i < |s| ==> s[i] == q[i - |p|];
      TrimBlank(s);
    } else {
      LeadingBlankPrefix(p, r + q);
      assert p + (r + q) == s;
      assert (r + q)[0] == r[0];
      assert s[|p|..] == r + q;
      TrailingBlankSuffix(r, q);
      assert (r + q)[..|r|] == r;
    }
  }

  lemma {:induction false} LeadingBlankPrefix(p: string, u: string)
    requires IsNullOrWhiteSpace(p)
    ensures LeadingWhiteSpace(p + u) == |p| + LeadingWhiteSpace(u)
  {
    if p == [] {
      assert p + u == u;
    } else {
      assert (p + u)[0] == p[0];
      assert (p + u)[1..] == p[1..] + u;
      LeadingBlankPrefix(p[1..], u);
    }
  }

  lemma {:induction false} TrailingBlankSuffix(u: string, q: string)
    requires IsNullOrWhiteSpace(q)
    ensures TrailingWhiteSpace(u + q) == |q| + TrailingWhiteSpace(u)
  {
    if q == [] {
      assert u + q == u;
    } else {
      var init := q[..|q| - 1];
      assert (u + q)[|u + q| - 1] == q[|q| - 1];
      assert (u + q)[..|u + q| - 1] == u + init;
      TrailingBlankSuffix(u, init);
    }
  }

  lemma BlankSuffix(t: string, m: nat)
    requires m <= |t|
    requires forall k :: m <= k < |t| ==> IsWhiteSpace(t[k])
    ensures IsNullOrWhiteSpace(t[m..])
  {
    forall i | 0 <= i < |t| - m
      ensures IsWhiteSpace(t[m..][i])
    {
      assert t[m..][i] == t[m + i];
    }
  }

  lemma SplitAt(s: string, k: nat)
    requires k <= |s|
    ensures s == s[..k] + s[k..]
  {
  }

  /** Number of occurrences of c in s. */
  function Count(s: string, c: char): (n: nat)
    ensures n <= |s|
    ensures n == 0 <==> forall i :: 0 <= i < |s| ==> s[i] != c
  {
    if s == [] then 0
    else
      var rest := Count(s[1..], c);
      assert forall i :: 1 <= i < |s| ==> s[i] == s[1..][i - 1];
      (if s[0] == c then 1 else 0) + rest
  }

  lemma {:induction false} CountAppend(a: string, b: string, c: char)
    ensures Count(a + b, c) == Count(a, c) + Count(b, c)
  {
    if a == [] {
      assert a + b == b;
    } else {
      assert (a + b)[1..] == a[1..] + b;
      CountAppend(a[1..], b, c);
    }
  }

  /** Index of the first occurrence of c in s, or |s| when there is none. */
  function IndexOf(s: string, c: char): (k: nat)
    ensures k <= |s|
    ensures forall i :: 0 <= i < k ==> s[i] != c
    ensures k < |s| ==> s[k] == c
  {
    if s == [] then 0
    else if s[0] == c then 0
    else
      var rest := IndexOf(s[1..], c);
      assert forall i :: 1 <= i <= rest ==> s[i] == s[1..][i - 1];
      1 + rest
  }

  /** A first occurrence inside t stays the first occurrence in t + u. */
  lemma {:induction false} IndexOfAppend(t: string, u: string, c: char)
    requires IndexOf(t, c) < |t|
    ensures IndexOf(t + u, c) == IndexOf(t, c)
  {
    if t[0] != c {
      assert (t + u)[1..] == t[1..] + u;
      IndexOfAppend(t[1..], u, c);
    }
  }

  lemma SplitLast(s: string)
    requires |s| > 0
    ensures s == s[..|s| - 1] + [s[|s| - 1]]
  {
  }
}
