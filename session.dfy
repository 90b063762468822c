/**
 * The calculator's state and its event handlers: the expression being
 * typed, the degree mode, and the text of the result element, changed by
 * the pad buttons, the keyboard and the degree button. Each handler ends
 * with `updateDisplay`, modelled by `Refresh`.
 */
module Session {
  import opened Text
  import opened Gate
  import opened Sanitizer
  import opened Sign

  /** `s.slice(0, -1)`: the text without its last character; the empty text stays empty. */
  function DropLast(s: string): (r: string)
    ensures s == [] ==> r == []
    ensures s != [] ==> r + [s[|s| - 1]] == s
  {
    if s == [] then [] else s[..|s| - 1]
  }

  /**
   * The expression after `=`: the result with its commas removed when the
   * evaluation succeeds, the empty text when it shows `Error`, and the
   * empty text again when there was nothing to evaluate.
   */
  function AfterEquals(expr: string, degMode: bool, engine: Engine): string {
    if expr == [] then []
    else
      var res := EvalText(expr, degMode, engine);
      if res != "Error" then StripCommas(res) else []
  }

  /**
   * `updateDisplay`'s effect on the result text: `"0"` for an empty
   * expression, the evaluation of a complete one, and `prev` kept otherwise.
   */
  function Shown(expr: string, degMode: bool, engine: Engine, prev: string): string {
    if expr == [] then "0"
    else if IsComplete(expr) then EvalText(expr, degMode, engine)
    else prev
  }

  /**
   * The result text agrees with the expression wherever `updateDisplay` would
   * rewrite it. This relies on the engine being a fixed function of the text.
   */
  predicate Consistent(expr: string, degMode: bool, engine: Engine, result: string) {
    (expr == [] ==> result == "0") &&
    (IsComplete(expr) ==> result == EvalText(expr, degMode, engine))
  }

  /** JavaScript's `a <= b` on strings: lexicographic order of the characters. */
  predicate LexLe(a: string, b: string) {
    a == [] || (b != [] && (a[0] < b[0] || (a[0] == b[0] && LexLe(a[1..], b[1..]))))
  }

  /** The key test `key >= '0' && key <= '9'`. */
  predicate IsDigitKey(key: string) {
    LexLe("0", key) && LexLe(key, "9")
  }

  /** The one-character keys the keyboard handler appends as they are. */
  const OperatorKeys: seq<string> := ["+", "-", "*", "/", "(", ")", "."]

  /** What the keyboard handler does with a key. */
  datatype KeyEffect = Append(text: string) | Equals | Erase | Clear | Ignore

  /** The chain of tests of the keyboard handler, in its order. */
  function KeyAction(key: string): KeyEffect {
    if IsDigitKey(key) then Append(key)
    else if key in OperatorKeys then Append(key)
    else if key == "Enter" || key == "=" then Equals
    else if key == "Backspace" then Erase
    else if Lower(key) == "c" then Clear
    else Ignore
  }

  /** The pad actions the click handler checks before the function and value attributes. */
  const Actions: seq<string> := ["clear", "back", "equals", "neg"]

  /** The calculator: its state and one method per handler. */
  class Calculator {
    var expr: string
    var degMode: bool
    /** The text of the result element. */
    var result: string
    /** Evaluation and formatting, as `tryEval` hands them the sanitized text. */
    const engine: Engine

    ghost predicate Valid()
      reads this
    {
      Consistent(expr, degMode, engine, result)
    }

    /** The state when the page loads, after the initial `updateDisplay`. */
    constructor (engine: Engine)
      ensures this.engine == engine
      ensures expr == [] && !degMode && result == "0"
      ensures Valid()
    {
      this.engine := engine;
      expr := [];
      degMode := false;
      result := "0";
    }

    /** `updateDisplay`: recomputes the result text from the expression. */
    method Refresh()
      modifies this`result
      ensures result == Shown(expr, degMode, engine, old(result))
      ensures Valid()
    {
      if expr == [] {
        result := "0";
      } else if IsComplete(expr) {
        var out := TryEval(expr, degMode, engine);
        result := out;
      }
    }

    /**
     * The click handler of a pad button with the given `data-value`,
     * `data-action` and `data-func` attributes (a missing attribute is the
     * empty text).
     */
    method Press(value: string, action: string, func: string)
      modifies this
      ensures degMode == old(degMode)
      ensures action == "clear" ==> expr == []
      ensures action == "back" ==> expr == DropLast(old(expr))
      ensures action == "equals" ==> expr == AfterEquals(old(expr), degMode, engine)
      ensures action == "neg" ==> expr == ToggleNeg(old(expr))
      ensures action !in Actions && func != [] ==> expr == old(expr) + func + "("
      ensures action !in Actions && func == [] ==> expr == old(expr) + value
      ensures result == Shown(expr, degMode, engine,
        if action == "equals" && old(expr) != [] then EvalText(old(expr), degMode, engine) else old(result))
      ensures Valid()
    {
      if action == "clear" {
        expr := [];
      } else if action == "back" {
        expr := DropLast(expr);
      } else if action == "equals" {
        if expr == [] {
          result := "0";
        } else {
          var res := TryEval(expr, degMode, engine);
          if res != "Error" {
            expr := StripCommas(res);
            result := res;
          } else {
            result := "Error";
            expr := [];
          }
        }
      } else if action == "neg" {
        expr := ToggleNeg(expr);
      } else if func != [] {
        expr := expr + func + "(";
      } else if value != [] {
        expr := expr + value;
      }
      Refresh();
    }

    /** The keydown handler; equals goes through a click on the equals button. */
    method KeyDown(key: string)
      modifies this
      ensures degMode == old(degMode)
      ensures KeyAction(key).Append? ==>
        expr == old(expr) + key && result == Shown(expr, degMode, engine, old(result))
      ensures KeyAction(key).Equals? ==>
        expr == AfterEquals(old(expr), degMode, engine) &&
        result == Shown(expr, degMode, engine,
          if old(expr) != [] then EvalText(old(expr), degMode, engine) else old(result))
      ensures KeyAction(key).Erase? ==>
        expr == DropLast(old(expr)) && result == Shown(expr, degMode, engine, old(result))
      ensures KeyAction(key).Clear? ==> expr == [] && result == "0"
      ensures KeyAction(key).Ignore? ==> expr == old(expr) && result == old(result)
      ensures !KeyAction(key).Ignore? ==> Valid()
    {
      if IsDigitKey(key) {
        expr := expr + key;
        Refresh();
        return;
      }
      if key in OperatorKeys {
        expr := expr + key;
        Refresh();
        return;
      }
      if key == "Enter" || key == "=" {
        Press("", "equals", "");
        return;
      }
      if key == "Backspace" {
        expr := DropLast(expr);
        Refresh();
        return;
      }
      if Lower(key) == "c" {
        expr := [];
        Refresh();
        return;
      }
    }

    /** The degree button: flips the mode and nothing else, then refreshes the result. */
    method ToggleDegrees()
      modifies this
      ensures degMode == !old(degMode) && expr == old(expr)
      ensures result == Shown(expr, degMode, engine, old(result))
      ensures Valid()
    {
      degMode := !degMode;
      Refresh();
    }
  }

  // ------------------------------------------------------------------ lemmas

  /** `updateDisplay` always leaves the result consistent with the expression. */
  lemma ShownConsistent(expr: string, degMode: bool, engine: Engine, prev: string)
    ensures Consistent(expr, degMode, engine, Shown(expr, degMode, engine, prev))
  {
  }

  /** An incomplete, non-empty expression leaves the result text as it was. */
  lemma IncompleteKeepsResult(expr: string, degMode: bool, engine: Engine, prev: string)
    requires expr != [] && !IsComplete(expr)
    ensures Shown(expr, degMode, engine, prev) == prev
  {
  }

  /** `=` on an empty expression shows `"0"` and leaves the expression empty. */
  lemma EmptyEquals(degMode: bool, engine: Engine, prev: string)
    ensures AfterEquals([], degMode, engine) == []
    ensures Shown(AfterEquals([], degMode, engine), degMode, engine, prev) == "0"
  {
  }

  /** After a successful `=` the expression holds no comma. */
  lemma AfterEqualsNoComma(expr: string, degMode: bool, engine: Engine)
    ensures NoComma(AfterEquals(expr, degMode, engine))
  {
  }

  /**
   * A failed `=` clears the expression, and the `updateDisplay` that ends the
   * handler then replaces the `Error` it has just written by `"0"`.
   */
  lemma EqualsErrorShowsZero(expr: string, degMode: bool, engine: Engine)
    requires EvalText(expr, degMode, engine) == "Error"
    ensures AfterEquals(expr, degMode, engine) == []
    ensures Shown(AfterEquals(expr, degMode, engine), degMode, engine, "Error") == "0"
  {
  }

  /** A successful `=` whose result has no comma puts the result itself into the expression. */
  lemma EqualsKeepsPlainResult(expr: string, degMode: bool, engine: Engine)
    requires expr != []
    requires EvalText(expr, degMode, engine) != "Error" && NoComma(EvalText(expr, degMode, engine))
    ensures AfterEquals(expr, degMode, engine) == EvalText(expr, degMode, engine)
  {
    StripCommasNoComma(EvalText(expr, degMode, engine));
  }

  /**
   * The digit test compares strings, not characters: it accepts every key
   * that starts with `0` to `8`, and of the keys starting with `9` only `9`.
   */
  lemma DigitKeyIff(key: string)
    ensures IsDigitKey(key) <==> key != [] && ('0' <= key[0] <= '8' || key == "9")
  {
    assert "0"[0] == '0' && "0"[1..] == [];
    assert "9"[0] == '9' && "9"[1..] == [];
    assert LexLe("0", key) <==> key != [] && '0' <= key[0];
    if key != [] && key[0] == '9' {
      assert LexLe(key, "9") <==> LexLe(key[1..], []);
      assert key == "9" <==> key[1..] == [];
    }
  }

  /** The clear key is `c` in either case. */
  lemma ClearKeyIff(key: string)
    ensures Lower(key) == "c" <==> key == "c" || key == "C"
  {
    if Lower(key) == "c" {
      assert LowerChar(key[0]) == 'c';
    }
  }

  lemma {:induction false} KeyExamples()
    ensures KeyAction("7") == Append("7") && KeyAction("00") == Append("00")
    ensures KeyAction("99") == Ignore && KeyAction("Enter") == Equals
    ensures KeyAction("C") == Clear && KeyAction("Backspace") == Erase
  {
    DigitKeyIff("7");
    DigitKeyIff("00");
    DigitKeyIff("99");
    DigitKeyIff("Enter");
    DigitKeyIff("C");
    DigitKeyIff("Backspace");
    ClearKeyIff("99");
  }
}
