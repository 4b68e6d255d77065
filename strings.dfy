/**
 * The few Python string operations the bot relies on: `str.strip()`,
 * `" ".join(...)`, the `in` substring test and `str.replace(old, "")`.
 */
module Strings {

  /** The ASCII characters `str.isspace()` accepts, which `str.strip()`
      removes: tab, line feed, vertical tab, form feed, carriage return, the
      four separators U+001C to U+001F, and space. */
  predicate IsSpace(c: char) {
    ('\t' <= c <= '\r') || ('\U{001C}' <= c <= '\U{001F}') || c == ' '
  }

  /** `s.lstrip()`: the longest suffix of `s` that does not start with whitespace. */
  function StripLeft(s: string): (r: string)
    ensures |r| <= |s| && r == s[|s| - |r|..]
    ensures forall k :: 0 <= k < |s| - |r| ==> IsSpace(s[k])
    ensures r == [] || !IsSpace(r[0])
    decreases |s|
  {
    if |s| > 0 && IsSpace(s[0]) then StripLeft(s[1..]) else s
  }

  /** `s.rstrip()`: the longest prefix of `s` that does not end with whitespace. */
  function StripRight(s: string): (r: string)
    ensures |r| <= |s| && r == s[..|r|]
    ensures forall k :: |r| <= k < |s| ==> IsSpace(s[k])
    ensures r == [] || !IsSpace(r[|r| - 1])
    decreases |s|
  {
    if |s| > 0 && IsSpace(s[|s| - 1]) then StripRight(s[..|s| - 1]) else s
  }

  /** `s.strip()`. */
  function Strip(s: string): string {
    StripRight(StripLeft(s))
  }

  /** A stripped string is an infix of the input with only whitespace cut
      off either end. */
  lemma StripIsTrim(s: string)
    ensures exists i, j :: 0 <= i <= j <= |s| && Strip(s) == s[i..j]
                           && (forall k :: 0 <= k < i ==> IsSpace(s[k]))
                           && (forall k :: j <= k < |s| ==> IsSpace(s[k]))
  {
    var l := StripLeft(s);
    var r := StripRight(l);
    var i := |s| - |l|;
    var j := i + |r|;
    assert r == s[i..j] by {
      assert l == s[i..];
      assert r == l[..|r|];
    }
    assert forall k :: j <= k < |s| ==> IsSpace(s[k]) by {
      forall k | j <= k < |s| ensures IsSpace(s[k]) {
        assert s[k] == l[k - i];
      }
    }
    TrimWitness(s, Strip(s), i, j);
  }

  /** The witnesses of `StripIsTrim`, packed into its existential. */
  lemma TrimWitness(s: string, t: string, i: nat, j: nat)
    requires i <= j <= |s| && t == s[i..j]
    requires forall k :: 0 <= k < i ==> IsSpace(s[k])
    requires forall k :: j <= k < |s| ==> IsSpace(s[k])
    ensures exists i, j :: 0 <= i <= j <= |s| && t == s[i..j]
                           && (forall k :: 0 <= k < i ==> IsSpace(s[k]))
                           && (forall k :: j <= k < |s| ==> IsSpace(s[k]))
  {
  }

  /** A stripped string has no whitespace at either end. */
  lemma StripEnds(s: string)
    ensures Strip(s) == [] || (!IsSpace(Strip(s)[0]) && !IsSpace(Strip(s)[|Strip(s)| - 1]))
  {
    var l := StripLeft(s);
    if Strip(s) != [] {
      assert Strip(s)[0] == l[0];
    }
  }

  /** Stripping twice is stripping once. */
  lemma StripIdempotent(s: string)
    ensures Strip(Strip(s)) == Strip(s)
  {
    var t := Strip(s);
    StripEnds(s);
    assert StripLeft(t) == t;
    assert StripRight(t) == t;
  }

  /** `sep.join(parts)`. */
  function Join(parts: seq<string>, sep: string): (r: string)
    ensures |parts| == 1 ==> r == parts[0]
    ensures |parts| > 0 ==> parts[0] <= r
  {
    if |parts| == 0 then ""
    else if |parts| == 1 then parts[0]
    else parts[0] + sep + Join(parts[1..], sep)
  }

  /** `sub` occurs in `s` starting at index `i`. */
  predicate OccursAt(s: string, sub: string, i: int) {
    0 <= i <= |s| - |sub| && s[i..i + |sub|] == sub
  }

  /** Python's `sub in s`: some window of `s` equals `sub`. */
  predicate Contains(s: string, sub: string) {
    exists i :: 0 <= i <= |s| - |sub| && OccursAt(s, sub, i)
  }

  /** A string contains each of its infixes. */
  lemma ContainsInfix(a: string, b: string, c: string)
    ensures Contains(a + b + c, b)
  {
    assert (a + b + c)[|a|..|a| + |b|] == b;
    assert OccursAt(a + b + c, b, |a|);
  }

  /** Dropping the first character keeps every occurrence that does not
      start at index 0. */
  lemma ContainsTail(s: string, sub: string)
    requires |s| > 0
    ensures Contains(s, sub) <==> sub <= s || Contains(s[1..], sub)
  {
    var t := s[1..];
    if Contains(t, sub) {
      var i :| 0 <= i <= |t| - |sub| && OccursAt(t, sub, i);
      assert t[i..i + |sub|] == sub;
      assert s[i + 1..i + 1 + |sub|] == t[i..i + |sub|];
      assert OccursAt(s, sub, i + 1);
    }
    if sub <= s {
      assert s[0..|sub|] == sub;
      assert OccursAt(s, sub, 0);
    }
    if Contains(s, sub) && !(sub <= s) {
      var i :| 0 <= i <= |s| - |sub| && OccursAt(s, sub, i);
      assert OccursAt(s, sub, 0) ==> sub <= s;
      assert i > 0;
      assert t[i - 1..i - 1 + |sub|] == s[i..i + |sub|];
      assert OccursAt(t, sub, i - 1);
    }
  }

  /** `s.replace(pat, "")` with a non-empty `pat`: scan left to right and drop
      every non-overlapping occurrence of `pat`. */
  function RemoveAll(s: string, pat: string): (r: string)
    requires |pat| > 0
    ensures |r| <= |s|
    decreases |s|
  {
    if pat <= s then RemoveAll(s[|pat|..], pat)
    else if s == [] then []
    else [s[0]] + RemoveAll(s[1..], pat)
  }

  /** Removing a pattern that does not occur changes nothing. */
  lemma {:induction false} RemoveAllAbsent(s: string, pat: string)
    requires |pat| > 0 && !Contains(s, pat)
    ensures RemoveAll(s, pat) == s
    decreases |s|
  {
    if s != [] {
      ContainsTail(s, pat);
      assert s == [s[0]] + s[1..];
      RemoveAllAbsent(s[1..], pat);
    }
  }

  /** Removing a pattern that occurs makes the string strictly shorter. */
  lemma {:induction false} RemoveAllPresentShrinks(s: string, pat: string)
    requires |pat| > 0 && Contains(s, pat)
    ensures |RemoveAll(s, pat)| < |s|
    decreases |s|
  {
    if !(pat <= s) {
      assert s != [] by {
        var i :| OccursAt(s, pat, i);
      }
      ContainsTail(s, pat);
      RemoveAllPresentShrinks(s[1..], pat);
    }
  }
}
