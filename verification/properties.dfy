/**
 Properties that relate several editor transitions, or a transition to an
 independent description of its effect.
 */
module EditorProperties {
  import opened Chars
  import opened NumberSegment
  import opened Sanitizer
  import opened Editor

  /** The characters at `i` and `i + 1` are both operators. */
  predicate OperatorPairAt(e: string, i: nat)
    requires i + 1 < |e|
  {
    IsOperatorChar(e[i]) && IsOperatorChar(e[i + 1])
  }

  /** No operator directly follows another. */
  predicate NoAdjacentOperators(e: string) {
    forall i | 0 <= i < |e| - 1 :: !OperatorPairAt(e, i)
  }

  /** Backspace undoes every append of a digit or point to an expression
      that is not a result. */
  lemma BackspaceUndoesPush(s: State, ch: char)
    requires !s.justEvaluated && IsNumberChar(ch)
    requires PushChar(s, ch) != s
    ensures Backspace(PushChar(s, ch)) == s
  {
    assert (s.expr + [ch])[..|s.expr|] == s.expr;
  }

  /** Backspace after an operator that was appended restores the expression
      (the result flag stays cleared). */
  lemma BackspaceUndoesOperator(s: State, op: char)
    requires IsOperatorChar(op) && s.expr != [] && !EndsWithOperator(s.expr)
    ensures Backspace(PushChar(s, op)) == State(s.expr, false)
  {
    assert (s.expr + [op])[..|s.expr|] == s.expr;
  }

  /** Clearing twice is clearing once, and clearing forgets everything. */
  lemma ClearAllIdempotent(s: State, t: State)
    ensures ClearAll(ClearAll(s)) == ClearAll(s)
    ensures ClearAll(s) == ClearAll(t) == Initial()
  {
  }

  lemma AppendKeepsOperatorsApart(e: string, c: char)
    requires NoAdjacentOperators(e)
    requires e == [] || !IsOperatorChar(e[|e| - 1]) || !IsOperatorChar(c)
    ensures NoAdjacentOperators(e + [c])
  {
    var r := e + [c];
    forall i | 0 <= i < |r| - 1
      ensures !OperatorPairAt(r, i)
    {
      if i + 1 < |e| {
        assert r[i] == e[i] && r[i + 1] == e[i + 1];
        assert !OperatorPairAt(e, i);
      } else {
        assert r[i] == e[|e| - 1] && r[i + 1] == c;
      }
    }
  }

  lemma ReplaceLastKeepsOperatorsApart(e: string, c: char)
    requires NoAdjacentOperators(e)
    requires e != [] && IsOperatorChar(e[|e| - 1])
    ensures NoAdjacentOperators(e[..|e| - 1] + [c])
  {
    var r := e[..|e| - 1] + [c];
    forall i | 0 <= i < |r| - 1
      ensures !OperatorPairAt(r, i)
    {
      if i + 1 < |e| - 1 {
        assert r[i] == e[i] && r[i + 1] == e[i + 1];
        assert !OperatorPairAt(e, i);
      } else {
        assert r[i] == e[i] && IsOperatorChar(e[i + 1]);
        assert !OperatorPairAt(e, i);
      }
    }
  }

  /** Digits and the point. After a result they start a fresh expression;
      otherwise a digit is appended, and a point is appended unless the
      trailing segment already holds one, in which case nothing changes. */
  lemma PushCharNumberKeys(s: State, ch: char)
    requires IsNumberChar(ch)
    ensures s.justEvaluated ==> PushChar(s, ch) == State([ch], false)
    ensures !s.justEvaluated && IsDigit(ch) ==> PushChar(s, ch) == State(s.expr + [ch], false)
    ensures !s.justEvaluated && ch == '.' && '.' in Segment(s.expr) ==> PushChar(s, ch) == s
    ensures !s.justEvaluated && ch == '.' && '.' !in Segment(s.expr) ==>
      PushChar(s, ch) == State(s.expr + ".", false)
  {
    SegmentEmptyAfterOperator([]);
  }

  /** Operators. Only a minus may start an expression; an operator after an
      operator replaces it and leaves the flag alone; any other operator is
      appended and the expression stops being a result. */
  lemma PushCharOperatorKeys(s: State, ch: char)
    requires IsOperatorChar(ch)
    ensures ch != '-' && s.expr == [] ==> PushChar(s, ch) == s
    ensures ch == '-' && s.expr == [] ==> PushChar(s, ch) == State("-", false)
    ensures EndsWithOperator(s.expr) ==>
      |s.expr| > 0 && PushChar(s, ch) == State(s.expr[..|s.expr| - 1] + [ch], s.justEvaluated)
    ensures s.expr != [] && !EndsWithOperator(s.expr) ==>
      PushChar(s, ch) == State(s.expr + [ch], false)
  {
    EndsWithOperatorIff(s.expr);
    assert PushChar(s, ch) == (if s.expr == [] && ch != '-' then s
      else if EndsWithOperator(s.expr) then State(s.expr[..|s.expr| - 1] + [ch], s.justEvaluated)
      else State(s.expr + [ch], false));
  }

  /** Any other character is appended as it is, flag untouched. */
  lemma PushCharOtherKeys(s: State, ch: char)
    requires !IsNumberChar(ch) && !IsOperatorChar(ch)
    ensures PushChar(s, ch) == State(s.expr + [ch], s.justEvaluated)
  {
  }

  /** Typing changes the expression in one of four ways only: not at all,
      a fresh one-character expression, one character added, or the last
      character replaced. */
  lemma PushCharShape(s: State, ch: char)
    ensures var e, r := s.expr, PushChar(s, ch).expr;
      || r == e
      || r == [ch]
      || r == e + [ch]
      || (e != [] && r == e[..|e| - 1] + [ch])
  {
    if IsNumberChar(ch) {
      PushCharNumberKeys(s, ch);
    } else if IsOperatorChar(ch) {
      PushCharOperatorKeys(s, ch);
    } else {
      PushCharOtherKeys(s, ch);
    }
  }

  lemma NumberKeyKeepsOperatorsApart(s: State, ch: char)
    requires NoAdjacentOperators(s.expr) && IsNumberChar(ch)
    ensures NoAdjacentOperators(PushChar(s, ch).expr)
  {
    PushCharNumberKeys(s, ch);
    if s.justEvaluated {
      assert PushChar(s, ch).expr == [ch];
    } else if ch == '.' && '.' in Segment(s.expr) {
      assert PushChar(s, ch) == s;
    } else {
      assert PushChar(s, ch).expr == s.expr + [ch];
      AppendKeepsOperatorsApart(s.expr, ch);
    }
  }

  lemma OperatorKeyKeepsOperatorsApart(s: State, ch: char)
    requires NoAdjacentOperators(s.expr) && IsOperatorChar(ch)
    ensures NoAdjacentOperators(PushChar(s, ch).expr)
  {
    PushCharOperatorKeys(s, ch);
    EndsWithOperatorIff(s.expr);
    if s.expr == [] {
    } else if EndsWithOperator(s.expr) {
      ReplaceLastKeepsOperatorsApart(s.expr, ch);
    } else {
      AppendKeepsOperatorsApart(s.expr, ch);
    }
  }

  lemma OtherKeyKeepsOperatorsApart(s: State, ch: char)
    requires NoAdjacentOperators(s.expr) && !IsNumberChar(ch) && !IsOperatorChar(ch)
    ensures NoAdjacentOperators(PushChar(s, ch).expr)
  {
    PushCharOtherKeys(s, ch);
    AppendKeepsOperatorsApart(s.expr, ch);
  }

  /** Typing keeps the rule that no operator follows another: an operator
      typed after an operator replaces it instead of following it. */
  lemma PushCharKeepsOperatorsApart(s: State, ch: char)
    requires NoAdjacentOperators(s.expr)
    ensures NoAdjacentOperators(PushChar(s, ch).expr)
  {
    if IsNumberChar(ch) {
      NumberKeyKeepsOperatorsApart(s, ch);
    } else if IsOperatorChar(ch) {
      OperatorKeyKeepsOperatorsApart(s, ch);
    } else {
      OtherKeyKeepsOperatorsApart(s, ch);
    }
  }

  /** Deleting keeps it too. */
  lemma BackspaceKeepsOperatorsApart(s: State)
    requires NoAdjacentOperators(s.expr)
    ensures NoAdjacentOperators(Backspace(s).expr)
  {
    var r := Backspace(s).expr;
    forall i | 0 <= i < |r| - 1
      ensures !OperatorPairAt(r, i)
    {
      assert r[i] == s.expr[i] && r[i + 1] == s.expr[i + 1];
      assert !OperatorPairAt(s.expr, i);
    }
  }

  /** The toggle on an expression split as text before the segment and the
      segment. */
  lemma ToggleOnSplice(p: string, seg: string, flag: bool)
    requires seg != [] && Segment(p + seg) == seg
    ensures ToggleSign(State(p + seg, flag)) == State(p + "-" + seg, flag)
  {
    assert (p + seg)[..|p + seg| - |seg|] == p;
  }

  /** The minus that the toggle inserts is not part of the new segment: the
      trailing segment is the same before and after the toggle. */
  lemma ToggleSignKeepsSegment(s: State)
    ensures Segment(ToggleSign(s).expr) == Segment(s.expr)
  {
    var seg := Segment(s.expr);
    if seg != [] {
      var prefix := s.expr[..|s.expr| - |seg|];
      assert s == State(prefix + seg, s.justEvaluated);
      ToggleOnSplice(prefix, seg, s.justEvaluated);
      var p1 := prefix + "-";
      assert p1[|p1| - 1] == '-';
      SegmentOfSplice(p1, seg);
      assert prefix + "-" + seg == p1 + seg;
    }
  }

  /** So the toggle is not its own inverse: a second toggle inserts a second
      minus in front of the same segment. (Every state with a segment is
      `State(p + seg, flag)` with `Segment(p + seg) == seg`.) */
  lemma ToggleSignTwice(p: string, seg: string, flag: bool)
    requires seg != [] && Segment(p + seg) == seg
    ensures ToggleSign(ToggleSign(State(p + seg, flag))) == State(p + "-" + "-" + seg, flag)
    ensures ToggleSign(ToggleSign(State(p + seg, flag))) != State(p + seg, flag)
  {
    ToggleOnSplice(p, seg, flag);
    var p1 := p + "-";
    assert p1[|p1| - 1] == '-';
    SegmentOfSplice(p1, seg);
    assert p + "-" + seg == p1 + seg;
    ToggleOnSplice(p1, seg, flag);
    assert p1 + "-" + seg == p + "-" + "-" + seg;
  }

  /** The sign flip itself is an involution on a segment that carries at most
      one leading minus: flipping the flipped segment gives back the original. */
  lemma SignFlipInvolution(prefix: string, seg: string)
    requires seg != [] && !(|seg| > 1 && seg[0] == '-' && seg[1] == '-')
    ensures var once := SignFlip(prefix, seg);
      SignFlip(prefix, once[|prefix|..]) == prefix + seg
  {
    var once := SignFlip(prefix, seg);
    if seg[0] == '-' {
      assert seg == "-" + seg[1..];
    } else {
      assert once[|prefix|..][1..] == seg;
    }
  }

  /** A percentage string that is itself a literal becomes the new trailing
      segment, provided the old segment had no point (so the text before it
      ends in no number character). */
  lemma PercentValueBecomesSegment(s: State, percent: PercentStep)
    requires Segment(s.expr) != [] && '.' !in Segment(s.expr)
    requires percent(Segment(s.expr)).Some?
    requires IsNumberLiteral(percent(Segment(s.expr)).value)
    ensures Segment(ApplyPercent(s, percent).expr) == percent(Segment(s.expr)).value
  {
    var seg := Segment(s.expr);
    var start := |s.expr| - |seg|;
    var v := percent(seg).value;
    var prefix := s.expr[..start];
    SegmentBoundary(s.expr);
    assert ApplyPercent(s, percent).expr == prefix + v;
    if prefix != [] {
      assert prefix[|prefix| - 1] == s.expr[start - 1];
    }
    SegmentOfSplice(prefix, v);
  }

  /** A trailing operator makes no difference to the result of `=`. */
  lemma EvaluateIgnoresTrailingOperator(e: string, op: char, flag: bool, arith: ArithStep)
    requires e != [] && !EndsWithOperator(e) && IsOperatorChar(op)
    ensures Evaluate(State(e + [op], flag), arith) == Evaluate(State(e, flag), arith)
  {
    EndsWithOperatorIff(e + [op]);
    assert (e + [op])[..|e|] == e;
  }

  /** A failed evaluation repeated changes nothing more, once no operator is
      left at the end. */
  lemma EvaluateFailureSettles(s: State, arith: ArithStep)
    requires s.expr != []
    requires arith(Sanitize(TrimTrailingOperator(s.expr))).None?
    requires TrimTrailingOperator(s.expr) != [] && !EndsWithOperator(TrimTrailingOperator(s.expr))
    ensures Evaluate(Evaluate(s, arith), arith) == Evaluate(s, arith)
  {
  }

  /** After a result, a digit starts a new expression, while an operator
      continues from the result. */
  lemma AfterResult(s: State, arith: ArithStep, d: char, op: char)
    requires s.expr != [] && arith(Sanitize(TrimTrailingOperator(s.expr))).Some?
    requires IsDigit(d) && IsOperatorChar(op)
    ensures var v := arith(Sanitize(TrimTrailingOperator(s.expr))).value;
      && PushChar(Evaluate(s, arith), d) == State([d], false)
      && (v != [] && !EndsWithOperator(v) ==> PushChar(Evaluate(s, arith), op) == State(v + [op], false))
  {
  }
}
