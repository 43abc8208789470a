/**
 The character filter applied to the expression before it is evaluated:
 every character outside digits, the four operators, `%` and `.` is dropped.
 */
module Sanitizer {
  import opened Chars

  /** The characters the filter keeps. */
  predicate IsAllowed(c: char) {
    IsDigit(c) || IsOperatorChar(c) || c == '%' || c == '.'
  }

  predicate IsClean(s: string) {
    forall i | 0 <= i < |s| :: IsAllowed(s[i])
  }

  /** `a` is obtained from `b` by deleting characters (order is kept). */
  predicate IsSubsequence(a: string, b: string)
    decreases |b|
  {
    if a == [] then true
    else if b == [] then false
    else if a[0] == b[0] then IsSubsequence(a[1..], b[1..])
    else IsSubsequence(a, b[1..])
  }

  /** Drops every character that is not allowed. The result is clean and no
      longer than the input. */
  function Sanitize(s: string): (r: string)
    ensures IsClean(r)
    ensures |r| <= |s|
  {
    if s == [] then []
    else
      var rest := Sanitize(s[1..]);
      if IsAllowed(s[0]) then [s[0]] + rest else rest
  }

  /** The filter keeps every allowed character exactly as often as the input
      holds it, and no other character at all. */
  lemma {:induction false} SanitizeCounts(s: string)
    ensures forall c :: multiset(Sanitize(s))[c] == if IsAllowed(c) then multiset(s)[c] else 0
  {
    if s != [] {
      SanitizeCounts(s[1..]);
      assert s == [s[0]] + s[1..];
    }
  }

  /** The filter only deletes: its output is a subsequence of its input. */
  lemma {:induction false} SanitizeIsSubsequence(s: string)
    ensures IsSubsequence(Sanitize(s), s)
  {
    if s != [] {
      SanitizeIsSubsequence(s[1..]);
      var r := Sanitize(s);
      if IsAllowed(s[0]) {
        assert r[0] == s[0] && r[1..] == Sanitize(s[1..]);
      } else if r != [] {
        assert IsAllowed(r[0]);
        assert r[0] != s[0];
      }
    }
  }

  /** A string that is already clean passes through unchanged. */
  lemma {:induction false} SanitizeCleanIdentity(s: string)
    requires IsClean(s)
    ensures Sanitize(s) == s
  {
    if s != [] {
      assert IsAllowed(s[0]);
      SanitizeCleanIdentity(s[1..]);
    }
  }

  /** Sanitizing twice is the same as sanitizing once. */
  lemma {:induction false} SanitizeIdempotent(s: string)
    ensures Sanitize(Sanitize(s)) == Sanitize(s)
  {
    SanitizeCleanIdentity(Sanitize(s));
  }
}
