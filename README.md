# Calculator text logic in Dafny

This project models the text-level core of a browser calculator (`script.js`). The calculator builds an expression string from button presses and keys. It evaluates the expression automatically whenever the expression is "complete", and explicitly on `=`. The model covers four parts.

- **Completeness gate** (`Gate`). An expression is evaluated automatically only when its trimmed text ends in a digit or `)`.
- **Sanitizer** (`Rewrite`, `Sanitizer`). Before the JavaScript engine sees the expression, `tryEval` runs these passes in order:
  - it replaces the `×` and `÷` glyphs;
  - it rewrites whole-word `sin|cos|tan|log|ln|sqrt` calls to `Math.*` members;
  - it rewrites percent literals;
  - it rejects characters outside a whitelist;
  - it rejects texts that contain a blocklisted keyword;
  - it strips commas;
  - in degree mode, it wraps the arguments of simple trigonometric calls in a degree-to-radian conversion.

  Each global regular-expression replacement is a left-to-right scan: where the pattern matches, the match is replaced and the scan resumes after it; elsewhere one character is copied. `TryEval` is the imperative `tryEval`: it reassigns the text pass after pass, returns early at the whitelist, and returns early in the loop over the blocklist (`FindBlocked`). It is proved equal to the function `EvalText`.
- **Sign toggle** (`Sign`). `toggleNeg` finds the leftmost match of `(\-?\d+(\.\d+)?|\))$` and flips the sign of the trailing number. The match is leftmost, so a binary minus is taken for a sign: `"3-5"` becomes `"35"`.
- **Edit state machine** (`Session.Calculator`). The class holds the expression, the degree flag and the result text. It has one method per handler:
  - `Press` is the pad click handler;
  - `KeyDown` is the keyboard handler;
  - `ToggleDegrees` is the degree button;
  - `Refresh` is `updateDisplay` as far as it changes state.

  Each method states its whole new state. Each of them also leaves the display invariant `Valid()` true (for `KeyDown`, on every key it handles): an empty expression shows `"0"`, and a complete one shows its evaluation.

The JavaScript evaluation of the sanitized text is not modelled. That covers three things: `Function('"use strict";return (…)')()`, the infinity/NaN check, and `formatNumber`. Together they are the parameter `engine: Engine`, a fixed total function from the sanitized text to `None` (the evaluation threw, or the value is not finite) or `Some(text)`, the one text that both the result element shows and `=` puts into the expression. The calculator keeps its engine in a `const` field.

Behaviour of the code that the model reproduces on purpose:
- The blocklist compares the lower-cased text against the entry `'Function'`, which has an upper-case letter. That entry can never match (`FunctionEntryInert`, `FunctionPassesBlocklist`).
- The whitelist runs after the function and percent rewrites. Those rewrites neither add nor remove a rejected character, so the verdict depends only on the raw input (`WhitelistVerdict`).
- In degree mode, the degree pass skips a call whose argument holds a parenthesis. The scan does go on inside that argument, so an inner call without parentheses is still converted (`RewriteDegreesNested`).
- After a failed `=`, the handler writes `Error` into the result and clears the expression. The `updateDisplay()` call that ends the handler then sees the empty expression and overwrites `Error` with `"0"` (script.js:128-130 and script.js:140). So the text shown after a failed `=` is `"0"` (`EqualsErrorShowsZero`, `Calculator.Press`).
- Commas are stripped after the blocklist has looked at the text. A keyword split by a comma therefore passes the blocklist and reaches the evaluator whole: `ev,al` becomes `eval` (`CommaJoinsKeyword`).
- The keyboard digit test `key >= '0' && key <= '9'` compares strings, not characters. It accepts every key that starts with `0` to `8`. Of the keys that start with `9`, it accepts only `"9"` (`DigitKeyIff`).

Where the calculator's documented behaviour and its code differ, the model follows the code:
- The code allows whitespace between a function name and its `(`.
- The code shows `"0"`, not `Error`, after a failed `=`.
- The code's `Function` entry does not block anything.

## Model

| member | source | states |
|---|---|---|
| Gate.CompleteIff | script.js:17-19 | an expression is complete exactly when it has a digit or `)` followed only by whitespace |
| Gate.IncompleteEndings | script.js:17-19 | the empty text and any text ending in an operator, a point or `(` are incomplete |
| Rewrite.ReplaceGlyphs | script.js:44 | `×` becomes `*`, `÷` becomes `/`, every other character and the length are kept, no glyph remains |
| Rewrite.CallLength | script.js:57 | a match of `name\s*\(` is the name, whitespace only, then `(` |
| Rewrite.RewriteFuncsCall | script.js:47-59 | a listed name, optional whitespace and `(` become its `Math` member (`log`→`Math.log10`, `ln`→`Math.log`) and `(`; the scan resumes after the parenthesis |
| Rewrite.CallOnLetterFree | script.js:57-59 | on a call whose rest holds no letters only the name, its whitespace and `(` change |
| Rewrite.RewriteFuncsCopy | script.js:57-59 | letter-free text is copied unchanged, and the scan goes on after it with the word flag of its last character |
| Rewrite.RewriteFuncsCallAfter | script.js:57-59 | a call after letter-free text that ends in a non-word character is rewritten, as in `2*sin(30)` |
| Rewrite.RewriteFuncsUnchanged | script.js:57-59 | text with no whole-word call is unchanged |
| Rewrite.NoLettersUnchanged | script.js:57-59 | text without letters is unchanged by the function rewrite |
| Rewrite.WholeWordExample | script.js:57 | `asin(1)` is not rewritten: `\b` requires a whole word |
| Rewrite.PercentLength | script.js:62 | a percent match is a decimal `\d+(\.\d+)?` in full followed by `%`; `PercentLengthOfDecimal` is the converse |
| Rewrite.RewritePercentLiteral | script.js:62 | a decimal followed by `%` becomes `(decimal/100)`; the rest is scanned on |
| Rewrite.RewritePercentCopy | script.js:62 | text without `%` whose last character is not a digit or point is copied unchanged |
| Rewrite.RewritePercentAfter | script.js:62 | a percent literal after such text is rewritten, as in `3+50%` |
| Rewrite.RewritePercentUnchanged | script.js:62 | text without `%` is unchanged |
| Rewrite.PercentExample | script.js:62 | `50%` becomes `(50/100)` |
| Rewrite.TrigCallShape | script.js:79 | a degree match is exactly `Math.name`, whitespace only, `(`, a non-empty argument free of parentheses, and `)` |
| Rewrite.RewriteDegreesCall | script.js:79-81 | `Math.f\s*(ARG)` with ARG non-empty and free of parentheses becomes `Math.f(((ARG)*Math.PI/180))` |
| Rewrite.RewriteDegreesNested | script.js:79-81 | a call whose argument runs into `(` is left as it is, and only the text after its `(` is scanned further |
| Rewrite.RewriteDegreesCopy | script.js:79-81 | text without `M` is copied unchanged by the degree pass |
| Rewrite.RewriteDegreesNoComma | script.js:79-81 | the degree pass brings in no comma |
| Sanitizer.Sanitize | script.js:41-82 | a text that passes every filter reaches the evaluator without commas |
| Sanitizer.TryEval | script.js:41-93 | the imperative passes and early returns compute `EvalText`: `"0"` for empty input, `"Error"` on rejection or evaluation failure, the engine's text otherwise |
| Sanitizer.FindBlocked | script.js:68-70 | the loop over the blocklist reports a hit exactly when some entry occurs in the lowered text |
| Sanitizer.FunctionEntryInert | script.js:68-70 | a lower-cased text never contains `Function` |
| Sanitizer.BlocklistIff | script.js:68-70 | the blocklist fires exactly when one of the six lower-case keywords occurs |
| Sanitizer.AllowedGlyphs | script.js:44 | after the glyph pass every character is allowed exactly when every input character is allowed or is `×`/`÷` |
| Sanitizer.AllowedFuncs | script.js:57-59 | the function rewrite neither brings in nor removes a character the whitelist rejects |
| Sanitizer.AllowedPercent | script.js:62 | the percent rewrite neither brings in nor removes a character the whitelist rejects |
| Sanitizer.WhitelistVerdict | script.js:44-65 | the whitelist passes the rewritten text exactly when every input character is allowed or is `×`/`÷` |
| Sanitizer.SanitizeRejectsIff | script.js:44-70 | sanitizing fails exactly when the input has a character outside the whitelist or the lowered rewritten text contains one of `constructor`, `prototype`, `window`, `document`, `eval`, `require` |
| Sanitizer.DegreeModeOnlyConverts | script.js:73-82 | the mode does not change whether sanitizing succeeds; without it the text is the comma-free rewrite, with it the degree pass is applied to that text |
| Sanitizer.SanitizeKeepsCommaFree | script.js:73 | comma stripping leaves a comma-free rewrite as it is |
| Sanitizer.EmptyEvaluatesToZero | script.js:42 | an empty input gives `"0"` |
| Sanitizer.RejectedShowsError | script.js:65-70 | a rejected non-empty input gives `"Error"` without reaching the evaluator |
| Sanitizer.UpperCaseKeywordRejected | script.js:68-70 | `EVAL` is rejected: the comparison ignores case |
| Sanitizer.FunctionPassesBlocklist | script.js:68-70 | `Function` passes the filters unchanged |
| Sanitizer.CommaJoinsKeyword | script.js:68-73 | `ev,al` passes every filter and reaches the evaluator as `eval`, a text the blocklist rejects |
| Sign.FirstTokenFrom | script.js:157 | the match is the leftmost position from which the rest is a number or `)` |
| Sign.NumberChars | script.js:157 | a matched number ends in a digit, has only digits, points and minus signs, and a minus only first |
| Sign.ToggleNegSigns | script.js:155-165 | an unsigned trailing decimal after a character that cannot extend it gains a `-`, and the prefix is kept |
| Sign.UnsignedMatch | script.js:157-165 | an unsigned leftmost match not ending in `)` is a decimal, and the toggle inserts `-` before it and keeps the text before it |
| Sign.ToggleNegDropsMinus | script.js:155-165 | a minus before a trailing decimal is removed whatever precedes it, so a binary minus is dropped |
| Sign.ToggleNegTwice | script.js:155-165 | toggling twice restores every text whose matched trailing number has no sign |
| Sign.ToggleNegAfterParen | script.js:160 | a text ending in `)` gets `-` appended |
| Sign.ToggleNegNoNumber | script.js:158 | a text with no numeric suffix gets `-` appended |
| Sign.ToggleNegEdits | script.js:155-165 | the result is the text with `-` appended, or the text with one `-` inserted before, or removed from, a trailing number |
| Sign.ToggleNegExamples | script.js:155-165 | `""`→`"-"`, `"3+5"`→`"3+-5"`→`"3+5"`, `"3-5"`→`"35"` |
| Sign.ToggleNegPointExample | script.js:157-165 | a point with no digit before it is not part of the number: `".5"`→`".-5"`→`".5"` |
| Session.DropLast | script.js:116 | the result plus the dropped last character is the text; the empty text stays empty |
| Session.Calculator.constructor | script.js:13 | an empty expression, radians (script.js:168) and the result `"0"` of the initial render (script.js:186); the display invariant holds |
| Session.Calculator.Refresh | script.js:22-38 | the result becomes `"0"` for an empty expression, the evaluation of a complete one, and is kept otherwise; nothing else changes |
| Session.Calculator.Press | script.js:108-140 | each action does its edit: clear empties, back drops a character, equals sets the comma-free result or clears on `Error`, neg toggles the sign, a function appends `name(`, a value is appended; the mode is kept and the display invariant holds |
| Session.Calculator.KeyDown | script.js:145-152 | a digit or operator key is appended, Enter or `=` acts as equals, Backspace drops a character, `c` clears, each of these leaving the display invariant true; other keys change nothing |
| Session.Calculator.ToggleDegrees | script.js:170-175 | the mode flips, the expression is kept, the result is refreshed |
| Session.ShownConsistent | script.js:22-38 | `updateDisplay` always leaves the display invariant true |
| Session.IncompleteKeepsResult | script.js:33-37 | a non-empty incomplete expression keeps the previous result |
| Session.EmptyEquals | script.js:119-120 | `=` on an empty expression shows `"0"` and keeps the expression empty |
| Session.AfterEqualsNoComma | script.js:124 | after `=` the expression holds no comma |
| Session.EqualsErrorShowsZero | script.js:126-140 | a failed `=` clears the expression, and the closing `updateDisplay` shows `"0"` in place of `Error` |
| Session.EqualsKeepsPlainResult | script.js:122-125 | a successful `=` with a comma-free result puts that result itself into the expression |
| Session.DigitKeyIff | script.js:147 | the digit test accepts exactly the keys starting with `0`–`8`, and `"9"` |
| Session.ClearKeyIff | script.js:151 | the clear key is `c` or `C` |
| Session.KeyExamples | script.js:147-151 | `7` and `00` are appended, `99` is ignored, Enter is equals, `C` clears, Backspace erases |

## Left out

- Evaluation: the JavaScript evaluation `Function(…)()` (script.js:87), the infinity/NaN check (script.js:88) and the caught exceptions (script.js:90-92) are float and dynamic-code semantics. They are the `Engine` parameter.
- Varying or effectful evaluation: the `Engine` is taken to depend on the sanitized text alone. The filters, however, admit calls to globals whose value changes from call to call or that act on the page, such as `Math.random()`, `Date.now()` or `location.reload()`. They use only letters, `.`, `(` and `)`, and contain none of the blocked keywords, so script.js:87 runs them. With such an expression, each `updateDisplay` (script.js:30-31) can show a new value. The display invariant `Valid()`, where a complete expression shows its evaluation, therefore holds only for a fixed engine. The model does not capture these effects or the changing values.
- `formatNumber` (script.js:96-104) depends on float rounding and on the locale, so it is also part of the `Engine` parameter. Its grouping regular expression is applied to the whole text, fractional digits included. The model makes no claim about where the commas go. It only states that `=` removes them.
- DOM access is not modelled:
  - the element lookups;
  - the `textContent` write of the expression;
  - the listener registration;
  - the class and text of the degree button;
  - the theme toggle (script.js:7-10, 23, 107-108, 145, 169-173, 180-183).
- The page markup is not part of this model. The model treats a pad click and a degree-button click as separate events. A button that triggered both handlers would be one `Press` followed by `ToggleDegrees`.
- `ev.preventDefault()` (script.js:149) has no effect on the modelled state.
- JavaScript's `\s` and `trim` also take in non-ASCII whitespace, such as U+00A0 and U+FEFF. `IsSpace` holds only for the six ASCII whitespace characters. As a result, a non-ASCII space that the whitelist would accept is rejected in the model, and the completeness gate does not trim it.
- `\w` and `\b` are ASCII-only in JavaScript regular expressions without the `u` flag, so `IsWordChar` matches them exactly. `Lower` maps only ASCII letters. The whitelist has already rejected every other letter by the time the blocklist lowers the text, so `Lower` agrees with `toLowerCase` there.
- Strings are sequences of Unicode scalar values, not UTF-16 code units. This differs only for characters outside the Basic Multilingual Plane. Every character the passes match is in that plane, `×` and `÷` included. `DropLast` removes one scalar value where `slice(0, -1)` removes one code unit, so the two differ on a text ending in a character outside that plane.
- Non-number evaluation results: `formatNumber` returns a value that is not a number as it is (script.js:97). An expression whose value is `undefined` or `null` (the input `null`, say) shows an empty result through `textContent` (script.js:31, 126). `=` then puts the text `null` or `undefined` into the expression through `String(res)` (script.js:125). The `Engine` yields one text for both places, so the model does not capture that difference.
- Sign.ToggleNegSigns: covers only a prefix whose last character is not a digit, a point or a minus. That condition makes the decimal the leftmost match, but the decimal can be the match without it: after a point with no digit before it, `".5"` becomes `".-5"` (`ToggleNegPointExample`). `UnsignedMatch` states the general case: an unsigned leftmost number gains a `-` and the text before it is kept. `ToggleNegTwice` and `ToggleNegEdits` build on it.
