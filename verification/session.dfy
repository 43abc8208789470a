/**
 A run of the calculator: the keypad buttons applied one after another, and
 the alphabet invariant such runs keep.
 */
module Session {
  import opened Chars
  import opened NumberSegment
  import opened Sanitizer
  import opened Editor
  import opened EditorProperties

  /** The buttons: a character key, `C`, `=`, `%`, `+/-` and backspace. */
  datatype Action = Key(ch: char) | Clear | Equals | Percent | Sign | Back

  /** The two float-dependent steps a run uses. */
  datatype FloatSteps = FloatSteps(percent: PercentStep, arith: ArithStep)

  function Step(s: State, a: Action, f: FloatSteps): State {
    match a
    case Key(ch) => PushChar(s, ch)
    case Clear => ClearAll(s)
    case Equals => Evaluate(s, f.arith)
    case Percent => ApplyPercent(s, f.percent)
    case Sign => ToggleSign(s)
    case Back => Backspace(s)
  }

  function Run(s: State, actions: seq<Action>, f: FloatSteps): State
    decreases |actions|
  {
    if actions == [] then s else Run(Step(s, actions[0], f), actions[1..], f)
  }

  /** The characters on the keypad: digits, the point and the operators. */
  predicate IsKeyChar(c: char) {
    IsNumberChar(c) || IsOperatorChar(c)
  }

  predicate IsKeyString(e: string) {
    forall i | 0 <= i < |e| :: IsKeyChar(e[i])
  }

  predicate KeyActions(actions: seq<Action>) {
    forall i | 0 <= i < |actions| :: actions[i].Key? ==> IsKeyChar(actions[i].ch)
  }

  /** Both float steps answer with keypad characters only. */
  ghost predicate KeepsKeyStrings(f: FloatSteps) {
    && (forall x :: f.percent(x).Some? ==> IsKeyString(f.percent(x).value))
    && (forall x :: f.arith(x).Some? ==> IsKeyString(f.arith(x).value))
  }

  lemma KeyStringSlices(e: string, i: nat, j: nat)
    requires IsKeyString(e) && i <= j <= |e|
    ensures IsKeyString(e[i..j])
  {
    assert forall k | 0 <= k < j - i :: e[i..j][k] == e[i + k];
  }

  lemma KeyStringConcat(a: string, b: string)
    requires IsKeyString(a) && IsKeyString(b)
    ensures IsKeyString(a + b)
  {
    assert forall k | 0 <= k < |a + b| :: (a + b)[k] == if k < |a| then a[k] else b[k - |a|];
  }

  lemma PushCharKeepsKeyString(s: State, ch: char)
    requires IsKeyString(s.expr) && IsKeyChar(ch)
    ensures IsKeyString(PushChar(s, ch).expr)
  {
    var e := s.expr;
    var r := PushChar(s, ch).expr;
    PushCharShape(s, ch);
    assert IsKeyString([ch]);
    KeyStringConcat(e, [ch]);
    if e != [] {
      KeyStringSlices(e, 0, |e| - 1);
      KeyStringConcat(e[..|e| - 1], [ch]);
    }
  }

  lemma ToggleSignKeepsKeyString(s: State)
    requires IsKeyString(s.expr)
    ensures IsKeyString(ToggleSign(s).expr)
  {
    var e := s.expr;
    var seg := Segment(e);
    if seg != [] {
      var prefix := e[..|e| - |seg|];
      KeyStringSlices(e, 0, |e| - |seg|);
      KeyStringSlices(e, |e| - |seg|, |e|);
      assert e[|e| - |seg|..|e|] == seg;
      assert IsKeyString("-");
      KeyStringConcat(prefix, "-");
      KeyStringConcat(prefix + "-", seg);
    }
  }

  lemma ApplyPercentKeepsKeyString(s: State, f: FloatSteps)
    requires IsKeyString(s.expr) && KeepsKeyStrings(f)
    ensures IsKeyString(ApplyPercent(s, f.percent).expr)
  {
    var e := s.expr;
    var seg := Segment(e);
    if seg != [] && f.percent(seg).Some? {
      KeyStringSlices(e, 0, |e| - |seg|);
      KeyStringConcat(e[..|e| - |seg|], f.percent(seg).value);
    }
  }

  lemma EvaluateKeepsKeyString(s: State, f: FloatSteps)
    requires IsKeyString(s.expr) && KeepsKeyStrings(f)
    ensures IsKeyString(Evaluate(s, f.arith).expr)
  {
    if s.expr != [] {
      KeyStringSlices(s.expr, 0, |s.expr| - 1);
    }
  }

  /** A run of three buttons is the three steps in order. */
  lemma RunSteps3(s: State, a: Action, b: Action, c: Action, f: FloatSteps)
    ensures Run(s, [a, b, c], f) == Step(Step(Step(s, a, f), b, f), c, f)
  {
    var acts := [a, b, c];
    assert acts[1..] == [b, c] && acts[1..][1..] == [c] && acts[1..][1..][1..] == [];
    var s1 := Step(s, a, f);
    var s2 := Step(s1, b, f);
    assert Run(s, acts, f) == Run(s1, [b, c], f);
    assert Run(s1, [b, c], f) == Run(s2, [c], f);
    assert Run(s2, [c], f) == Run(Step(s2, c, f), [], f);
  }

  /** One button keeps the expression inside the keypad alphabet, as long as
      the float steps print keypad characters only. */
  lemma StepKeepsKeyString(s: State, a: Action, f: FloatSteps)
    requires IsKeyString(s.expr)
    requires a.Key? ==> IsKeyChar(a.ch)
    requires KeepsKeyStrings(f)
    ensures IsKeyString(Step(s, a, f).expr)
  {
    match a
    case Key(ch) => PushCharKeepsKeyString(s, ch);
    case Clear =>
    case Equals => EvaluateKeepsKeyString(s, f);
    case Percent => ApplyPercentKeepsKeyString(s, f);
    case Sign => ToggleSignKeepsKeyString(s);
    case Back =>
      if s.expr != [] {
        KeyStringSlices(s.expr, 0, |s.expr| - 1);
      }
  }

  /** Every run from a keypad-alphabet state that presses only keypad keys
      stays in that alphabet, as long as the float steps answer in it. */
  lemma {:induction false} RunKeepsKeyString(s: State, actions: seq<Action>, f: FloatSteps)
    requires IsKeyString(s.expr)
    requires KeyActions(actions)
    requires KeepsKeyStrings(f)
    ensures IsKeyString(Run(s, actions, f).expr)
    decreases |actions|
  {
    if actions != [] {
      StepKeepsKeyString(s, actions[0], f);
      assert KeyActions(actions[1..]) by {
        forall i | 0 <= i < |actions[1..]|
          ensures actions[1..][i].Key? ==> IsKeyChar(actions[1..][i].ch)
        {
          assert actions[1..][i] == actions[i + 1];
        }
      }
      RunKeepsKeyString(Step(s, actions[0], f), actions[1..], f);
    }
  }

  /** So, as long as the float steps print keypad characters only, the filter
      applied before evaluation never removes a character of an expression
      typed on the keypad. A result printed in exponent form breaks this (see
      `SessionScenarios.ExponentResultKept` and
      `SessionScenarios.ExponentResultIsMangled`). */
  lemma SanitizeIsNoOpOnRuns(actions: seq<Action>, f: FloatSteps)
    requires KeyActions(actions)
    requires KeepsKeyStrings(f)
    ensures var e := TrimTrailingOperator(Run(Initial(), actions, f).expr);
      Sanitize(e) == e
  {
    var r := Run(Initial(), actions, f);
    RunKeepsKeyString(Initial(), actions, f);
    var e := TrimTrailingOperator(r.expr);
    if e != r.expr {
      KeyStringSlices(r.expr, 0, |r.expr| - 1);
    }
    assert forall i | 0 <= i < |e| :: IsKeyChar(e[i]) ==> IsAllowed(e[i]);
    SanitizeCleanIdentity(e);
  }
}
