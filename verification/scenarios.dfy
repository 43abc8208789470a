/**
 Concrete key sequences. They show behaviour the editor really has, including
 three rules a reader might expect it to keep but that it does not: a lone
 point lets a second point in, a leading `+` can appear, and the sign toggle
 can put two operators side by side.
 */
module Scenarios {
  import opened Chars
  import opened NumberSegment
  import opened Sanitizer
  import opened Editor
  import opened EditorProperties

  /** A lone point is not a number segment. */
  lemma LonePointHasNoSegment()
    ensures Segment(".") == []
  {
    LiteralIff(".");
    assert !MatchesAt(".", 0);
    SegmentUnique(".", []);
  }

  /** Two points in a row are accepted: `.` then `.` gives `..`. */
  lemma DoublePointAccepted()
    ensures PushChar(PushChar(Initial(), '.'), '.') == State("..", false)
  {
    SegmentEmptyAfterOperator([]);
    assert PushChar(Initial(), '.') == State(".", false);
    LonePointHasNoSegment();
  }

  /** `-` then `+` leaves an expression that starts with `+`. */
  lemma LeadingPlusReachable()
    ensures PushChar(PushChar(Initial(), '-'), '+') == State("+", false)
  {
    EndsWithOperatorIff("-");
  }

  /** `12+3` toggles to `12+-3`. */
  lemma ToggleTwelvePlusThree()
    ensures ToggleSign(State("12+3", false)) == State("12+-3", false)
  {
    assert IsNumberLiteral("3");
    SegmentOfSplice("12+", "3");
    ToggleOnSplice("12+", "3", false);
    assert "12+" + "3" == "12+3";
    assert "12+" + "-" + "3" == "12+-3";
  }

  /** Toggling `12+-3` again gives `12+--3`, not `12+3`. */
  lemma ToggleTwelvePlusThreeAgain()
    ensures ToggleSign(State("12+-3", false)) == State("12+--3", false)
  {
    assert IsNumberLiteral("3");
    SegmentOfSplice("12+-", "3");
    ToggleOnSplice("12+-", "3", false);
    assert "12+-" + "3" == "12+-3";
    assert "12+-" + "-" + "3" == "12+--3";
  }

  /** The toggle puts a minus right after an operator: `5-3` becomes `5--3`. */
  lemma ToggleMakesAdjacentOperators()
    ensures NoAdjacentOperators("5-3")
    ensures ToggleSign(State("5-3", false)) == State("5--3", false)
    ensures !NoAdjacentOperators("5--3")
  {
    assert IsNumberLiteral("3");
    SegmentOfSplice("5-", "3");
    ToggleOnSplice("5-", "3", false);
    assert "5-" + "3" == "5-3";
    assert "5-" + "-" + "3" == "5--3";
    assert OperatorPairAt("5--3", 1);
    assert !OperatorPairAt("5-3", 0) && !OperatorPairAt("5-3", 1);
  }

  /** An evaluation that fails (for example on `5/0`) leaves the expression
      as it is. */
  lemma FailedDivisionKept(arith: ArithStep)
    requires arith("5/0").None?
    ensures Evaluate(State("5/0", false), arith) == State("5/0", false)
  {
    var e := "5/0";
    assert !EndsWithOperator(e) by { EndsWithOperatorIff(e); }
    assert TrimTrailingOperator(e) == e;
    assert Sanitize(e) == e by {
      assert IsClean(e);
      SanitizeCleanIdentity(e);
    }
  }

  /** `5/0+` fails too (`5/0` is `Infinity`), and the trailing operator
      stays dropped: the expression becomes `5/0`. */
  lemma FailedEvaluationDropsOperator(arith: ArithStep)
    requires arith("5/0").None?
    ensures Evaluate(State("5/0+", false), arith) == State("5/0", false)
  {
    var e := "5/0+";
    assert EndsWithOperator(e) by { EndsWithOperatorIff(e); }
    assert TrimTrailingOperator(e) == "5/0" by { assert e[..3] == "5/0"; }
    assert Sanitize("5/0") == "5/0" by {
      assert IsClean("5/0");
      SanitizeCleanIdentity("5/0");
    }
  }
}
