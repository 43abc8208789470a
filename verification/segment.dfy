/**
 The trailing number segment of an expression: the whole match of the
 end-anchored pattern `(\d+\.?\d*|\.\d+)?$`. A regular-expression search
 returns the match that starts leftmost, so the segment is the longest suffix
 of the expression that the pattern `\d+\.?\d*|\.\d+` matches in full, and the
 empty string when there is no such suffix.
 */
module NumberSegment {
  import opened Chars

  // ---------------------------------------------------------------------
  // The pattern, matched in full by recursive descent

  /** `\d*` */
  predicate AllDigits(s: string) {
    s == [] || (IsDigit(s[0]) && AllDigits(s[1..]))
  }

  /** `\d*\.?\d*`: what may follow the first digit in `\d+\.?\d*`. */
  predicate DigitsPointDigits(s: string) {
    || s == []
    || (IsDigit(s[0]) && DigitsPointDigits(s[1..]))
    || (s[0] == '.' && AllDigits(s[1..]))
  }

  /** `\d+\.?\d*|\.\d+`: digits with an optional point and more digits, or a
      point followed by at least one digit. */
  predicate IsNumberLiteral(s: string) {
    || (s != [] && IsDigit(s[0]) && DigitsPointDigits(s[1..]))
    || (|s| >= 2 && s[0] == '.' && AllDigits(s[1..]))
  }

  // ---------------------------------------------------------------------
  // The same language by character content

  predicate NumberChars(s: string) {
    s == [] || (IsNumberChar(s[0]) && NumberChars(s[1..]))
  }

  function Dots(s: string): nat {
    if s == [] then 0 else (if s[0] == '.' then 1 else 0) + Dots(s[1..])
  }

  predicate HasDigit(s: string) {
    s != [] && (IsDigit(s[0]) || HasDigit(s[1..]))
  }

  lemma {:induction false} AllDigitsIff(s: string)
    ensures AllDigits(s) <==> NumberChars(s) && Dots(s) == 0
  {
    if s != [] {
      AllDigitsIff(s[1..]);
    }
  }

  lemma {:induction false} DigitsPointDigitsIff(s: string)
    ensures DigitsPointDigits(s) <==> NumberChars(s) && Dots(s) <= 1
  {
    if s != [] {
      DigitsPointDigitsIff(s[1..]);
      AllDigitsIff(s[1..]);
    }
  }

  /** The pattern's language is exactly the strings of digits and points
      with at most one point and at least one digit. */
  lemma LiteralIff(s: string)
    ensures IsNumberLiteral(s) <==> NumberChars(s) && Dots(s) <= 1 && HasDigit(s)
  {
    if s != [] {
      var t := s[1..];
      DigitsPointDigitsIff(t);
      AllDigitsIff(t);
      if t != [] {
        assert t[1..] == s[2..];
      }
    }
  }

  lemma {:induction false} NumberCharsAt(s: string)
    requires NumberChars(s)
    ensures forall i | 0 <= i < |s| :: IsNumberChar(s[i])
  {
    if s != [] {
      NumberCharsAt(s[1..]);
      assert forall i | 1 <= i < |s| :: s[i] == s[1..][i - 1];
    }
  }

  lemma {:induction false} DotsZeroIff(s: string)
    ensures Dots(s) == 0 <==> '.' !in s
  {
    if s != [] {
      DotsZeroIff(s[1..]);
      assert s == [s[0]] + s[1..];
    }
  }

  // ---------------------------------------------------------------------
  // The segment

  /** The anchored pattern matches the suffix of `expr` that starts at `k`. */
  predicate MatchesAt(expr: string, k: nat)
    requires k <= |expr|
  {
    IsNumberLiteral(expr[k..])
  }

  /** The leftmost position at or after `i` where the anchored pattern
      matches, as the matched suffix. */
  function SegmentFrom(expr: string, i: nat): (r: string)
    requires i <= |expr|
    ensures |r| <= |expr| - i
    ensures r == expr[|expr| - |r|..]
    ensures r == [] || IsNumberLiteral(r)
    ensures forall k | i <= k < |expr| - |r| :: !MatchesAt(expr, k)
    decreases |expr| - i
  {
    if i == |expr| then []
    else if MatchesAt(expr, i) then expr[i..]
    else SegmentFrom(expr, i + 1)
  }

  /** `currentNumberSegment()`: the longest suffix of `expr` in the pattern's
      language, or the empty string when no non-empty suffix is in it. It
      therefore holds no operator, and at most one point. */
  function Segment(expr: string): (r: string)
    ensures |r| <= |expr| && r == expr[|expr| - |r|..]
    ensures r == [] || IsNumberLiteral(r)
    ensures forall k | 0 <= k < |expr| - |r| :: !MatchesAt(expr, k)
    ensures forall i | 0 <= i < |r| :: IsNumberChar(r[i])
    ensures Dots(r) <= 1
  {
    var r := SegmentFrom(expr, 0);
    LiteralIff(r);
    NumberCharsAt(r);
    r
  }

  /** The properties above pin the segment down: any suffix that is empty or
      a literal, with no literal suffix longer than it, is the segment. */
  lemma SegmentUnique(expr: string, t: string)
    requires |t| <= |expr| && t == expr[|expr| - |t|..]
    requires t == [] || IsNumberLiteral(t)
    requires forall k | 0 <= k < |expr| - |t| :: !MatchesAt(expr, k)
    ensures Segment(expr) == t
  {
    var r := Segment(expr);
    var kt, kr := |expr| - |t|, |expr| - |r|;
    assert MatchesAt(expr, kt) == IsNumberLiteral(t);
    assert MatchesAt(expr, kr) == IsNumberLiteral(r);
  }

  /** A string that is not in the language because of a non-number character
      or a second point stays out of it when characters are put in front. */
  predicate Spoilt(s: string) {
    !NumberChars(s) || Dots(s) >= 2
  }

  lemma {:induction false} SpoiltSuffixes(expr: string, j: nat)
    requires j <= |expr| && Spoilt(expr[j..])
    ensures forall k | 0 <= k <= j :: Spoilt(expr[k..])
    decreases j
  {
    if j > 0 {
      assert expr[j - 1..][1..] == expr[j..];
      SpoiltSuffixes(expr, j - 1);
    }
  }

  /** No suffix that starts before `i` is a literal when the character just
      before `i` is not a number character, or is a second point. */
  lemma NoLiteralBefore(expr: string, i: nat)
    requires 0 < i <= |expr|
    requires !IsNumberChar(expr[i - 1]) || (expr[i - 1] == '.' && Dots(expr[i..]) >= 1)
    ensures forall k | 0 <= k < i :: !MatchesAt(expr, k)
  {
    assert expr[i - 1..][1..] == expr[i..];
    SpoiltSuffixes(expr, i - 1);
    forall k | 0 <= k < i
      ensures !MatchesAt(expr, k)
    {
      LiteralIff(expr[k..]);
    }
  }

  /** The segment is empty for an empty expression and for one that ends with
      an operator. */
  lemma SegmentEmptyAfterOperator(expr: string)
    requires expr == [] || EndsWithOperator(expr)
    ensures Segment(expr) == []
  {
    if expr != [] {
      EndsWithOperatorIff(expr);
      NoLiteralBefore(expr, |expr|);
      SegmentUnique(expr, []);
    }
  }

  /** Splicing a literal (or nothing) after a prefix that does not end with a
      number character makes that literal the segment. */
  lemma SegmentOfSplice(p: string, t: string)
    requires p == [] || !IsNumberChar(p[|p| - 1])
    requires t == [] || IsNumberLiteral(t)
    ensures Segment(p + t) == t
  {
    var e := p + t;
    assert e[|e| - |t|..] == t;
    if p != [] {
      assert e[|p| - 1] == p[|p| - 1];
      NoLiteralBefore(e, |p|);
    }
    SegmentUnique(e, t);
  }

  /** The segment is maximal: the character just before it is never a
      digit, and is a point only when the segment already holds one; with no
      segment, the expression is empty or does not end with a digit. */
  lemma SegmentBoundary(expr: string)
    ensures var seg := Segment(expr);
      var start := |expr| - |seg|;
      && (seg != [] && start > 0 ==>
            !IsDigit(expr[start - 1]) && (expr[start - 1] == '.' ==> '.' in seg))
      && (seg == [] && expr != [] ==> !IsDigit(expr[|expr| - 1]))
  {
    var seg := Segment(expr);
    var start := |expr| - |seg|;
    if start > 0 {
      var w := expr[start - 1..];
      assert w[0] == expr[start - 1] && w[1..] == seg;
      assert MatchesAt(expr, start - 1) == IsNumberLiteral(w);
      LiteralIff(w);
      LiteralIff(seg);
      DotsZeroIff(seg);
    }
  }

  /** The backward scan a hand-written lexer would use: walk left over digits
      and points, stopping before a second point; keep what was walked over if
      it holds a digit. It finds exactly the pattern's segment. */
  method ScanSegment(expr: string) returns (r: string)
    ensures r == Segment(expr)
  {
    var i := |expr|;
    var sawDot := false;
    var sawDigit := false;
    while i > 0 && IsNumberChar(expr[i - 1]) && !(expr[i - 1] == '.' && sawDot)
      invariant 0 <= i <= |expr|
      invariant NumberChars(expr[i..])
      invariant Dots(expr[i..]) == if sawDot then 1 else 0
      invariant sawDigit <==> HasDigit(expr[i..])
      decreases i
    {
      assert expr[i - 1..][1..] == expr[i..];
      if expr[i - 1] == '.' {
        sawDot := true;
      } else {
        sawDigit := true;
      }
      i := i - 1;
    }
    r := if sawDigit then expr[i..] else [];
    ScanStopIsSegment(expr, i, r);
  }

  /** Where the scan stops: the run it walked over is the segment when it has
      a digit, and there is no segment otherwise. */
  lemma ScanStopIsSegment(expr: string, i: nat, r: string)
    requires i <= |expr| && NumberChars(expr[i..]) && Dots(expr[i..]) <= 1
    requires i > 0 ==> !IsNumberChar(expr[i - 1]) || (expr[i - 1] == '.' && Dots(expr[i..]) >= 1)
    requires r == if HasDigit(expr[i..]) then expr[i..] else []
    ensures r == Segment(expr)
  {
    if i > 0 {
      NoLiteralBefore(expr, i);
    }
    LiteralIff(expr[i..]);
    if !HasDigit(expr[i..]) {
      forall k | i <= k < |expr|
        ensures !MatchesAt(expr, k)
      {
        assert !HasDigit(expr[k..]) by {
          NoDigitInSuffix(expr, i, k);
        }
        LiteralIff(expr[k..]);
      }
    }
    SegmentUnique(expr, r);
  }

  lemma {:induction false} NoDigitInSuffix(expr: string, i: nat, k: nat)
    requires i <= k <= |expr| && !HasDigit(expr[i..])
    ensures !HasDigit(expr[k..])
    decreases k - i
  {
    if i < k {
      assert expr[i..][1..] == expr[i + 1..];
      NoDigitInSuffix(expr, i + 1, k);
    }
  }
}
