/**
 Character classes and the two small string helpers of the calculator:
 the operator test and the last character of the expression.
 */
module Chars {

  predicate IsDigit(c: char) {
    '0' <= c <= '9'
  }

  /** One of the four operator characters `+`, `-`, `*` and `/`. */
  predicate IsOperatorChar(c: char) {
    c == '+' || c == '-' || c == '*' || c == '/'
  }

  /** A digit or the decimal point: the characters a number is written with. */
  predicate IsNumberChar(c: char) {
    IsDigit(c) || c == '.'
  }

  // The regular-expression operator test of the source: it is unanchored, so
  // it holds when some character of `s` is an operator.
  predicate IsOperator(s: string) {
    exists i | 0 <= i < |s| :: IsOperatorChar(s[i])
  }

  /** `expr.slice(-1)`: the last character as a string, or the empty string. */
  function LastChar(expr: string): (r: string)
    ensures |r| == if expr == [] then 0 else 1
    ensures r == expr[|expr| - |r|..]
  {
    if expr == [] then [] else expr[|expr| - 1..]
  }

  /** `isOperator(lastChar())`. */
  predicate EndsWithOperator(expr: string) {
    IsOperator(LastChar(expr))
  }

  /** On a one-character string the unanchored test is the character class itself. */
  lemma IsOperatorOfChar(c: char)
    ensures IsOperator([c]) <==> IsOperatorChar(c)
  {
    if IsOperatorChar(c) {
      assert [c][0] == c;
    }
  }

  /** The expression ends with an operator exactly when it is non-empty and its
      final character is an operator; the empty expression never does. */
  lemma EndsWithOperatorIff(expr: string)
    ensures EndsWithOperator(expr) <==> |expr| > 0 && IsOperatorChar(expr[|expr| - 1])
  {
    if |expr| > 0 {
      assert LastChar(expr) == [expr[|expr| - 1]];
      IsOperatorOfChar(expr[|expr| - 1]);
    }
  }
}
