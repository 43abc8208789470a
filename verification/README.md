# Minimal Calculator — expression editor

A Dafny model of the expression editor behind the Minimal Calculator web
widget (`script.js`). The widget holds two globals, the expression typed so
far and a flag saying whether that expression is a just-computed result. Each
button changes them:

- a key appends a character, or replaces a trailing operator, or is refused;
- `C` clears;
- backspace deletes the last character;
- `+/-` puts a minus in front of the trailing number;
- `%` replaces the trailing number by its percentage;
- `=` drops a trailing operator and evaluates.

The model keeps the globals as an immutable `Editor.State(expr, justEvaluated)`.
Each handler is a pure transition function. The trailing number
(`currentNumberSegment`, a regular expression) gets two definitions:

- `NumberSegment.Segment`, the leftmost-match reading of the pattern, built on
  a recursive matcher for its language;
- `NumberSegment.ScanSegment`, an independent backward scan proved to return
  the same string.

The two steps that need IEEE doubles are parameters of type
`string -> Option<string>`, so every statement holds whatever they compute:

- the percentage of a segment;
- evaluating a sanitized expression, then rounding it and printing it.

Files:

- `wrappers.dfy`: `Option`.
- `chars.dfy`: character classes, `isOperator` and `lastChar`.
- `sanitize.dfy`: the character filter applied before evaluation.
- `segment.dfy`: the number-segment pattern, its longest-match reading and the backward scan.
- `editor.dfy`: the state and one transition per handler.
- `properties.dfy`: relations between transitions, the per-key behaviour of typing, and the operators-apart invariant.
- `session.dfy`: runs of button presses, and the keypad-alphabet invariant those runs keep.
- `scenarios.dfy`: concrete key sequences, including the places where the editor does not keep a rule one might expect.
- `session_scenarios.dfy`: a run in which a result printed in exponent form leaves the keypad alphabet.

## Where the code does not keep its own rules

The comments in `script.js` name rules that the code keeps only in part. The
model follows the code, and a lemma shows each gap.

- The comment at line 19 says the editor prevents operators in a row.
  Typing and backspace do keep operators apart
  (`EditorProperties.PushCharKeepsOperatorsApart`,
  `EditorProperties.BackspaceKeepsOperatorsApart`). The sign toggle puts a
  minus right after an operator, so `5-3` becomes `5--3`
  (`Scenarios.ToggleMakesAdjacentOperators`).
- The comment at line 28 says a number gets no second decimal point. A lone
  `.` matches neither alternative of the pattern at line 49, so it is no
  segment, and `..` is accepted (`Scenarios.DoublePointAccepted`).
- The comment at line 34 says an expression starts with no operator except
  minus. After `-`, line 37 replaces the minus by the next operator, so `-`
  then `+` leaves `+` (`Scenarios.LeadingPlusReachable`).
- Lines 70-71 strip a leading minus from the segment, which would make the
  toggle undo itself. The pattern never includes a minus, so that branch
  cannot fire. A second toggle on `12+-3` gives `12+--3`, not `12+3`
  (`EditorProperties.ToggleSignTwice`, `Scenarios.ToggleTwelvePlusThreeAgain`).
- One might expect a failed `=` to leave the expression alone. Line 93 removes
  a trailing operator before the failure return at line 102 or the `catch`,
  so the removal stays. `5/0` is `Infinity`, which line 102 rejects, and yet
  `5/0+` becomes `5/0` (`Editor.Evaluate`,
  `Scenarios.FailedEvaluationDropsOperator`).
- The comment at line 14 presents the filter before evaluation as a guard
  that keeps digits, operators and points. A result printed in exponent form
  also reaches it. `toString` prints `0.0000001` as `1e-7`. Typing `+1` after
  that result and pressing `=` hands the filter `1e-7+1`. It drops the `e`,
  so `1-7+1` is evaluated (`SessionScenarios.ExponentResultKept`,
  `SessionScenarios.ExponentResultIsMangled`).

## Model

| member | source | states |
|---|---|---|
| Chars.LastChar | script.js:12 | the result is empty for an empty expression and otherwise the one-character suffix of it |
| Chars.IsOperatorOfChar | script.js:11 | the unanchored operator test on a one-character string holds exactly when that character is `+ - * /` |
| Chars.EndsWithOperatorIff | script.js:11-12 | `isOperator(lastChar())` holds exactly when the expression is non-empty and its last character is an operator |
| Sanitizer.Sanitize | script.js:15-17 | the output holds only `0-9 + - * / % .` and is no longer than the input |
| Sanitizer.SanitizeCounts | script.js:15-17 | the output holds every allowed character exactly as often as the input does, and no other character |
| Sanitizer.SanitizeIsSubsequence | script.js:15-17 | the output is a subsequence of the input |
| Sanitizer.SanitizeCleanIdentity | script.js:15-17 | an input holding only allowed characters comes back unchanged |
| Sanitizer.SanitizeIdempotent | script.js:15-17 | filtering twice is filtering once |
| NumberSegment.AllDigitsIff | script.js:49 | the recursive matcher for `\d*` accepts exactly the all-digit strings |
| NumberSegment.DigitsPointDigitsIff | script.js:49 | the matcher for `\d*\.?\d*` accepts exactly the strings of digits and points with at most one point |
| NumberSegment.LiteralIff | script.js:49 | a string is in the language of `\d+\.?\d*` or `\.\d+` exactly when it holds only digits and points, at most one point, and at least one digit |
| NumberSegment.SegmentFrom | script.js:49-50 | leftmost match from position `i`: a suffix that is empty or in the language, with no match at any earlier position from `i` |
| NumberSegment.Segment | script.js:48-51 | the segment is a suffix of the expression, empty or in the pattern's language, has no longer matching suffix, holds only digits and points, and has at most one point |
| NumberSegment.SegmentUnique | script.js:48-51 | any suffix that is empty or in the language, with no longer matching suffix, is the segment |
| NumberSegment.NoLiteralBefore | script.js:49 | no suffix that starts before a non-number character, or before a second point, is in the language |
| NumberSegment.SegmentEmptyAfterOperator | script.js:48-51 | the segment is empty for an empty expression and after a trailing operator |
| NumberSegment.SegmentOfSplice | script.js:49-50 | a literal appended after text that does not end in a digit or point becomes the segment |
| NumberSegment.SegmentBoundary | script.js:49-50 | the character before a segment is not a digit, and is a point only if the segment already holds one; with no segment, the expression does not end in a digit |
| NumberSegment.ScanStopIsSegment | script.js:48-51 | where a backward run of digits and points ends (before a non-number character or a second point), the run is the segment if it holds a digit, and otherwise there is no segment |
| NumberSegment.ScanSegment | script.js:48-51 | a backward scan over digits and points that stops before a second point and keeps the run if it has a digit; it returns exactly the segment |
| Editor.Initial | script.js:7-8 | the editor starts with an empty expression that is not a result, and the display shows `0` |
| Editor.Display | script.js:112-114 | the display shows the expression, or `0` exactly when the expression is empty |
| Editor.PushChar | script.js:20-46 | typing adds at most one character, and it never marks a result |
| Editor.ClearAll | script.js:53-57 | clearing gives the empty expression with the flag false, and the display shows `0` |
| Editor.Backspace | script.js:59-63 | nothing happens on an empty expression; otherwise the result plus the removed last character is the old expression; the flag is never touched |
| Editor.SignFlip | script.js:70-74 | the text before the segment is kept; a leading minus is stripped, or a minus is put in front |
| Editor.ToggleSign | script.js:65-76 | no change without a segment; otherwise a minus is inserted right before the segment, the length grows by one, and the flag is kept |
| Editor.ApplyPercent | script.js:78-88 | no change without a segment or when the segment is not a number; otherwise the text before the segment is kept and the segment is replaced by its percentage string, flag kept |
| Editor.TrimTrailingOperator | script.js:93 | a trailing operator is removed, and the result plus that operator is the input; otherwise the input is returned |
| Editor.Evaluate | script.js:90-110 | nothing on an empty expression; a failure keeps the trimmed expression and the flag; a success replaces the expression by the result and marks it |
| EditorProperties.BackspaceUndoesPush | script.js:59-61 | after a digit or point that was accepted into a non-result, backspace restores the state |
| EditorProperties.BackspaceUndoesOperator | script.js:59-61 | after an appended operator, backspace restores the expression with the flag cleared |
| EditorProperties.ClearAllIdempotent | script.js:53-57 | clearing twice is clearing once, and every state clears to the initial state |
| EditorProperties.AppendKeepsOperatorsApart | script.js:44 | appending a character that does not follow an operator with an operator keeps operators apart |
| EditorProperties.ReplaceLastKeepsOperatorsApart | script.js:35-37 | replacing a trailing operator keeps operators apart |
| EditorProperties.PushCharNumberKeys | script.js:21-31 | after a result, a digit or point starts the fresh expression holding just itself; otherwise a digit is appended, and a point is appended unless the segment already has a point, which leaves the state unchanged |
| EditorProperties.PushCharOperatorKeys | script.js:33-44 | an operator other than minus is refused on an empty expression; minus on an empty expression gives `-`; after an operator it replaces it, flag untouched; otherwise it is appended and the flag cleared |
| EditorProperties.PushCharOtherKeys | script.js:44 | any other character is appended with the flag unchanged |
| EditorProperties.PushCharShape | script.js:20-46 | typing leaves the expression alone, starts it afresh with the key, appends the key, or replaces the last character by it |
| EditorProperties.NumberKeyKeepsOperatorsApart | script.js:21-31 | digits and points keep operators apart |
| EditorProperties.OperatorKeyKeepsOperatorsApart | script.js:33-44 | operator keys keep operators apart |
| EditorProperties.OtherKeyKeepsOperatorsApart | script.js:44 | other characters keep operators apart |
| EditorProperties.PushCharKeepsOperatorsApart | script.js:19-46 | typing never puts an operator right after another |
| EditorProperties.BackspaceKeepsOperatorsApart | script.js:59-63 | backspace never puts an operator right after another |
| EditorProperties.ToggleOnSplice | script.js:69-73 | on text `p + seg` whose segment is `seg`, the toggle gives `p + "-" + seg` |
| EditorProperties.ToggleSignKeepsSegment | script.js:65-76 | the segment after the toggle is the segment before it |
| EditorProperties.ToggleSignTwice | script.js:65-76 | two toggles give `p + "--" + seg`, which differs from the original |
| EditorProperties.SignFlipInvolution | script.js:70-74 | flipping twice gives back the original on a segment with at most one leading minus |
| EditorProperties.PercentValueBecomesSegment | script.js:78-88 | when the old segment has no point and the percentage string is a literal, that string becomes the new segment |
| EditorProperties.EvaluateIgnoresTrailingOperator | script.js:91-95 | `=` on an expression with one trailing operator does what it does without that operator |
| EditorProperties.EvaluateFailureSettles | script.js:90-110 | after a failed `=` that leaves no trailing operator, pressing `=` again changes nothing |
| EditorProperties.AfterResult | script.js:21-41 | after a result, a digit starts a new expression, while an operator is appended to the result |
| Session.PushCharKeepsKeyString | script.js:20-46 | typing a keypad character keeps the expression in the keypad alphabet |
| Session.ToggleSignKeepsKeyString | script.js:65-76 | the toggle keeps the expression in the keypad alphabet |
| Session.ApplyPercentKeepsKeyString | script.js:78-88 | `%` keeps the keypad alphabet when percentage strings are in it |
| Session.EvaluateKeepsKeyString | script.js:90-110 | `=` keeps the keypad alphabet when result strings are in it |
| Session.RunSteps3 | script.js:117-128 | a run of three buttons applies the three handlers in order |
| Session.StepKeepsKeyString | script.js:117-131 | every button keeps the keypad alphabet, provided percentage and result strings are in it |
| Session.RunKeepsKeyString | script.js:117-131 | every run of keypad buttons keeps the keypad alphabet, provided percentage and result strings are in it |
| Session.SanitizeIsNoOpOnRuns | script.js:93-95 | provided percentage and result strings are in the keypad alphabet, the filter before evaluation removes nothing from an expression typed on the keypad from page load |
| Scenarios.LonePointHasNoSegment | script.js:49-50 | the segment of `.` is empty |
| Scenarios.DoublePointAccepted | script.js:27-44 | `.` then `.` from page load gives `..` |
| Scenarios.LeadingPlusReachable | script.js:33-37 | `-` then `+` from page load gives `+` |
| Scenarios.ToggleTwelvePlusThree | script.js:65-76 | the toggle turns `12+3` into `12+-3` |
| Scenarios.ToggleTwelvePlusThreeAgain | script.js:65-76 | the toggle turns `12+-3` into `12+--3` |
| Scenarios.ToggleMakesAdjacentOperators | script.js:73 | the toggle turns `5-3`, with operators apart, into `5--3`, with two adjacent operators |
| Scenarios.FailedDivisionKept | script.js:90-102 | a failed `=` on `5/0` leaves it unchanged |
| Scenarios.FailedEvaluationDropsOperator | script.js:90-102 | when `5/0` fails, `=` on `5/0+` still leaves `5/0`, the trailing operator gone |
| SessionScenarios.EvaluateTinyNumber | script.js:90-106 | `=` on `0.0000001`, with a result printed as `1e-7`, leaves `1e-7` marked as a result |
| SessionScenarios.TypePlusOneAfterResult | script.js:33-44 | `+` then `1` after the result `1e-7` gives `1e-7+1`, no longer a result |
| SessionScenarios.ExponentResultKept | script.js:90-106 | from `0.0000001`, the buttons `=`, `+`, `1` give `1e-7+1` when the result is printed as `1e-7` |
| SessionScenarios.ExponentResultIsMangled | script.js:95 | the filter turns `1e-7+1` into `1-7+1` |

`Editor.PushChar` carries only the two facts common to every key. Its per-key
behaviour is stated by the three `EditorProperties.PushChar*Keys` lemmas.
`Session.Step` and `Session.Run` model the button dispatch at lines 117-131.

## Left out

- Editor.ApplyPercent: the percentage string is a parameter.
  - `parseFloat`, division by 100 and `toString` (lines 83-85) are IEEE-double behaviour.
  - `None` stands for the `NaN` return at line 84.
- Editor.Evaluate: the arithmetic is a parameter.
  - The `Function` constructor (line 101), rounding to twelve places (line 104) and `toString` are IEEE-double behaviour.
  - `None` stands for the `Infinity`/`NaN` return and for a thrown error.
  - The model does not say that a `-Infinity` result gets past the test at line 102.
- Session.StepKeepsKeyString: requires that both float steps answer with digits, points and operators only. A real `toString` can print exponent forms such as `1e-7` or `1e+21` (lines 85 and 104), so `%` or `=` can put an `e` in the expression.
- Session.RunKeepsKeyString: requires the same of both float steps, for the same reason.
- Session.SanitizeIsNoOpOnRuns: requires the same of both float steps. Without it the filter can change the expression: `SessionScenarios.ExponentResultIsMangled` shows `1e-7+1` filtered to `1-7+1`.
- The screen: every state has the display text `Display(s)`. Line 93 changes the expression without a following `render()` when evaluation fails, so the screen keeps showing the old text until the next render. The model does not track what the screen shows.
- Editor.PushChar: a key is one character. The keyboard handler's unanchored `/[0-9]/` test at line 158 passes multi-character key names such as `F1` to `pushChar`; these are not modelled.
- Keyboard dispatch (lines 155-169) is not modelled; it is browser glue code. The button dispatch is `Session.Step`.
- Page wiring (lines 1-5), clipboard copy (lines 133-144) and the theme toggle (lines 146-152) are not modelled; they are browser I/O and cosmetics.
