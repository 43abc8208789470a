/**
 The expression editor: the state held by the widget and one pure transition
 per button. The float-dependent steps (turning a number into its percentage
 string, and evaluating an expression to its rounded result string) are
 parameters, so every statement here holds whatever those steps compute.
 */
module Editor {
  import opened Wrappers
  import opened Chars
  import opened NumberSegment
  import opened Sanitizer

  /** The expression typed so far and whether it is a just-computed result. */
  datatype State = State(expr: string, justEvaluated: bool)

  /** `parseFloat`, division by 100 and `toString`; `None` when the segment is
      not a number. */
  type PercentStep = string -> Option<string>

  /** Evaluation of a sanitized expression, rounding and `toString`; `None`
      when evaluation throws or yields `Infinity` or `NaN`. */
  type ArithStep = string -> Option<string>

  /** The state at page load. */
  function Initial(): (r: State)
    ensures r.expr == [] && !r.justEvaluated
    ensures Display(r) == "0"
  {
    State([], false)
  }

  /** What the display shows: the expression, or `0` exactly when the
      expression is empty. */
  function Display(s: State): (r: string)
    ensures s.expr != [] ==> r == s.expr
    ensures s.expr == [] ==> r == "0"
    ensures r != []
  {
    if s.expr == [] then "0" else s.expr
  }

  /** The state after a button or key adds the character `ch`. The
      expression grows by at most that one character, and typing never marks
      a result. */
  function PushChar(s: State, ch: char): (r: State)
    ensures |r.expr| <= |s.expr| + 1
    ensures r.justEvaluated ==> s.justEvaluated
  {
    var t := if s.justEvaluated && IsNumberChar(ch) then State([], false) else s;
    if ch == '.' && '.' in Segment(t.expr) then
      t
    else if IsOperatorChar(ch) then
      if t.expr == [] && ch != '-' then
        t
      else if EndsWithOperator(t.expr) then
        State(t.expr[..|t.expr| - 1] + [ch], t.justEvaluated)
      else
        State(t.expr + [ch], false)
    else
      State(t.expr + [ch], t.justEvaluated)
  }

  /** Resets the editor. */
  function ClearAll(s: State): (r: State)
    ensures r.expr == [] && !r.justEvaluated
    ensures Display(r) == "0"
  {
    State([], false)
  }

  /** Removes the last character; nothing happens on an empty expression, and
      the flag is never touched. */
  function Backspace(s: State): (r: State)
    ensures s.expr == [] ==> r == s
    ensures s.expr != [] ==> r.expr + [s.expr[|s.expr| - 1]] == s.expr
    ensures r.justEvaluated == s.justEvaluated
  {
    if s.expr == [] then s else State(s.expr[..|s.expr| - 1], s.justEvaluated)
  }

  /** The two branches of the sign toggle on a segment `seg` that starts
      after `prefix`: strip a leading minus, or put one in front. */
  function SignFlip(prefix: string, seg: string): (r: string)
    ensures |r| >= |prefix| && r[..|prefix|] == prefix
    ensures |seg| > 0 && seg[0] == '-' ==> r[|prefix|..] == seg[1..]
    ensures !(|seg| > 0 && seg[0] == '-') ==> r[|prefix|..] == "-" + seg
  {
    if |seg| > 0 && seg[0] == '-' then prefix + seg[1..] else prefix + "-" + seg
  }

  /** Puts a minus in front of the trailing segment. The strip branch can
      never fire, because a segment holds only digits and points. */
  function ToggleSign(s: State): (r: State)
    ensures Segment(s.expr) == [] ==> r == s
    ensures Segment(s.expr) != [] ==>
      var seg := Segment(s.expr);
      && r.expr == s.expr[..|s.expr| - |seg|] + "-" + seg
      && |r.expr| == |s.expr| + 1
      && r.justEvaluated == s.justEvaluated
  {
    var seg := Segment(s.expr);
    if seg == [] then s
    else
      assert IsNumberChar(seg[0]);
      State(SignFlip(s.expr[..|s.expr| - |seg|], seg), s.justEvaluated)
  }

  /** Replaces the trailing segment by its percentage string; nothing happens
      when there is no segment or it is not a number. */
  function ApplyPercent(s: State, percent: PercentStep): (r: State)
    ensures Segment(s.expr) == [] || percent(Segment(s.expr)).None? ==> r == s
    ensures Segment(s.expr) != [] && percent(Segment(s.expr)).Some? ==>
      var seg := Segment(s.expr);
      var start := |s.expr| - |seg|;
      && |r.expr| == start + |percent(seg).value|
      && r.expr[..start] == s.expr[..start]
      && r.expr[start..] == percent(seg).value
      && r.justEvaluated == s.justEvaluated
  {
    var seg := Segment(s.expr);
    var start := |s.expr| - |seg|;
    if seg == [] || percent(seg).None? then s
    else
      var e := s.expr[..start] + percent(seg).value;
      assert e[..start] == s.expr[..start];
      State(e, s.justEvaluated)
  }

  /** Drops one trailing operator, if there is one. */
  function TrimTrailingOperator(expr: string): (r: string)
    ensures EndsWithOperator(expr) ==> |expr| > 0 && r + [expr[|expr| - 1]] == expr
    ensures !EndsWithOperator(expr) ==> r == expr
  {
    if EndsWithOperator(expr) then expr[..|expr| - 1] else expr
  }

  /** The `=` button. Nothing happens on an empty expression. Otherwise one
      trailing operator is dropped for good, even when evaluation then fails;
      on success the result replaces the expression and is marked. */
  function Evaluate(s: State, arith: ArithStep): (r: State)
    ensures s.expr == [] ==> r == s
    ensures s.expr != [] && arith(Sanitize(TrimTrailingOperator(s.expr))).None? ==>
      r == State(TrimTrailingOperator(s.expr), s.justEvaluated)
    ensures s.expr != [] && arith(Sanitize(TrimTrailingOperator(s.expr))).Some? ==>
      r == State(arith(Sanitize(TrimTrailingOperator(s.expr))).value, true)
  {
    if s.expr == [] then s
    else
      var trimmed := TrimTrailingOperator(s.expr);
      match arith(Sanitize(trimmed))
      case None => State(trimmed, s.justEvaluated)
      case Some(v) => State(v, true)
  }
}
