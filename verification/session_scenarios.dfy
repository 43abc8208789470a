/**
 Runs of the calculator where the float steps print a result in exponent
 form. The keypad-alphabet invariant of a session then no longer holds, and
 the filter applied before evaluation changes the expression.
 */
module SessionScenarios {
  import opened Wrappers
  import opened Chars
  import opened Sanitizer
  import opened Editor
  import opened EditorProperties
  import opened Session

  /** A result that the float step prints in exponent form (`toString` of
      `0.0000001` is `1e-7`) stays on the display, and typing `+1` after it
      gives `1e-7+1`. */
  lemma ExponentResultKept(f: FloatSteps)
    requires f.arith("0.0000001") == Some("1e-7")
    ensures Run(State("0.0000001", false), [Equals, Key('+'), Key('1')], f) == State("1e-7+1", false)
  {
    RunSteps3(State("0.0000001", false), Equals, Key('+'), Key('1'), f);
    EvaluateTinyNumber(f.arith);
    TypePlusOneAfterResult();
  }

  /** `=` on `0.0000001` when the result is printed as `1e-7`. */
  lemma EvaluateTinyNumber(arith: ArithStep)
    requires arith("0.0000001") == Some("1e-7")
    ensures Evaluate(State("0.0000001", false), arith) == State("1e-7", true)
  {
    var e := "0.0000001";
    assert !EndsWithOperator(e) by { EndsWithOperatorIff(e); }
    assert Sanitize(e) == e by {
      assert IsClean(e);
      SanitizeCleanIdentity(e);
    }
  }

  /** An operator continues the result, and the digit after it is appended. */
  lemma TypePlusOneAfterResult()
    ensures PushChar(PushChar(State("1e-7", true), '+'), '1') == State("1e-7+1", false)
  {
    var s1 := State("1e-7", true);
    assert !EndsWithOperator(s1.expr) by { EndsWithOperatorIff(s1.expr); }
    PushCharOperatorKeys(s1, '+');
    var s2 := PushChar(s1, '+');
    assert s2.expr == s1.expr + ['+'] && !s2.justEvaluated;
    PushCharNumberKeys(s2, '1');
    assert PushChar(s2, '1').expr == s2.expr + ['1'];
    assert s1.expr + ['+'] + ['1'] == "1e-7+1";
  }

  /** Pressing `=` on it hands the filter `1e-7+1`, which drops the `e`, so
      `1-7+1` is evaluated instead. */
  lemma ExponentResultIsMangled()
    ensures Sanitize("1e-7+1") == "1-7+1"
  {
  }
}
