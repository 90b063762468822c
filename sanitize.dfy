/**
 * The sanitizing half of `tryEval`: the rewrites, the character whitelist,
 * the keyword blocklist, comma stripping and the degree pass, in the order
 * the calculator runs them, and the evaluation that follows.
 */
module Sanitizer {
  import opened Wrappers
  import opened Text
  import opened Rewrite

  // A character the whitelist test of `tryEval` does not reject: a digit, one
  // of + - * / ( ) . , %, whitespace or an ASCII letter.
  predicate Allowed(c: char) {
    IsDigit(c) || c in "+-*/().,%" || IsSpace(c) || IsAsciiLetter(c)
  }

  predicate AllAllowed(s: string) { forall i :: 0 <= i < |s| ==> Allowed(s[i]) }

  /** A character of the raw input that survives the whitelist once the glyphs are replaced. */
  predicate Admissible(c: char) { Allowed(c) || c == '\U{00D7}' || c == '\U{00F7}' }

  /** The blocklist, in the order it is tried, with its mixed-case entry. */
  const Blocked: seq<string> :=
    ["constructor", "prototype", "window", "document", "eval", "Function", "require"]

  /** The entries of the blocklist that can match a lower-cased text. */
  const Keywords: seq<string> :=
    ["constructor", "prototype", "window", "document", "eval", "require"]

  /** Some entry of the blocklist occurs in `lower`. */
  predicate HitsBlocklist(lower: string) {
    exists j :: 0 <= j < |Blocked| && Contains(lower, Blocked[j])
  }

  /** Outcome of sanitizing: the text handed to the evaluator, or the early `'Error'`. */
  datatype Sanitized = Error | Ok(text: string)

  /** The three rewrites that run before the whitelist. */
  function Rewritten(input: string): string {
    RewritePercent(RewriteFuncs(ReplaceGlyphs(input)))
  }

  /** The passes of `tryEval` up to, and not including, the evaluation. */
  function Sanitize(input: string, degMode: bool): (r: Sanitized)
    ensures r.Ok? ==> NoComma(r.text)
  {
    var safe := Rewritten(input);
    if !AllAllowed(safe) then Error
    else if HitsBlocklist(Lower(safe)) then Error
    else
      var plain := StripCommas(safe);
      if degMode then
        RewriteDegreesNoComma(plain);
        Ok(RewriteDegrees(plain))
      else Ok(plain)
  }

  /**
   * The evaluation `Function('"use strict";return (' + safe + ')')()`, the
   * check for infinities and NaN, and `formatNumber`: `None` where the
   * evaluation throws or the value is not finite, otherwise the text that the
   * result element shows and that `=` puts into the expression. The engine is
   * a fixed function of the sanitized text: the same text always evaluates to
   * the same result, and evaluating it has no other effect.
   */
  type Engine = string -> Option<string>

  /** What `tryEval` returns for `input`. */
  function EvalText(input: string, degMode: bool, engine: Engine): string {
    if input == [] then "0"
    else match Sanitize(input, degMode)
      case Error => "Error"
      case Ok(safe) => match engine(safe)
        case None => "Error"
        case Some(v) => v
  }

  /** `tryEval`: the passes one after the other, each reassigning the text, with an early `'Error'` return at the whitelist and at the blocklist. */
  method TryEval(input: string, degMode: bool, engine: Engine) returns (out: string)
    ensures out == EvalText(input, degMode, engine)
  {
    if input == [] {
      return "0";
    }
    var safe := ReplaceGlyphs(input);
    safe := RewriteFuncs(safe);
    safe := RewritePercent(safe);
    assert safe == Rewritten(input);
    if !AllAllowed(safe) {
      EvalRejected(input, degMode, engine);
      return "Error";
    }
    var hit := FindBlocked(Lower(safe));
    if hit {
      EvalRejected(input, degMode, engine);
      return "Error";
    }
    safe := StripCommas(safe);
    if degMode {
      safe := RewriteDegrees(safe);
    }
    EvalSanitized(input, degMode, engine, safe);
    var value := engine(safe);
    if value.Some? {
      out := value.value;
    } else {
      out := "Error";
    }
  }

  /** The loop over the blocklist: it stops at the first entry found in `lower`. */
  method FindBlocked(lower: string) returns (hit: bool)
    ensures hit == HitsBlocklist(lower)
  {
    for k := 0 to |Blocked|
      invariant forall j :: 0 <= j < k ==> !Contains(lower, Blocked[j])
    {
      if Contains(lower, Blocked[k]) {
        return true;
      }
    }
    return false;
  }

  lemma EvalRejected(input: string, degMode: bool, engine: Engine)
    requires input != []
    requires !AllAllowed(Rewritten(input)) || HitsBlocklist(Lower(Rewritten(input)))
    ensures EvalText(input, degMode, engine) == "Error"
  {
  }

  lemma EvalSanitized(input: string, degMode: bool, engine: Engine, safe: string)
    requires input != [] && AllAllowed(Rewritten(input)) && !HitsBlocklist(Lower(Rewritten(input)))
    requires safe == if degMode then RewriteDegrees(StripCommas(Rewritten(input))) else StripCommas(Rewritten(input))
    ensures EvalText(input, degMode, engine) == if engine(safe).Some? then engine(safe).value else "Error"
  {
  }

  // ------------------------------------------------------------- blocklist

  /** A lower-cased text never contains `Function`: that entry cannot match. */
  lemma FunctionEntryInert(s: string)
    ensures !Contains(Lower(s), "Function")
  {
    ContainsNeedsHead(Lower(s), "Function");
  }

  /** The blocklist rejects exactly the texts containing one of the six lower-case keywords. */
  lemma BlocklistIff(s: string)
    ensures HitsBlocklist(Lower(s)) <==>
      exists j :: 0 <= j < |Keywords| && Contains(Lower(s), Keywords[j])
  {
    var lower := Lower(s);
    FunctionEntryInert(s);
    if HitsBlocklist(lower) {
      var j :| 0 <= j < |Blocked| && Contains(lower, Blocked[j]);
      assert j != 5;
      var k := if j < 5 then j else 5;
      assert Keywords[k] == Blocked[j];
    }
    if exists j :: 0 <= j < |Keywords| && Contains(lower, Keywords[j]) {
      var j :| 0 <= j < |Keywords| && Contains(lower, Keywords[j]);
      var k := if j < 5 then j else 6;
      assert Blocked[k] == Keywords[j];
    }
  }

  // ------------------------------------------------------------- whitelist

  lemma AllowedAppend(a: string, b: string)
    ensures AllAllowed(a + b) <==> AllAllowed(a) && AllAllowed(b)
  {
    if AllAllowed(a + b) {
      forall i | 0 <= i < |a| ensures Allowed(a[i]) { assert (a + b)[i] == a[i]; }
      forall i | 0 <= i < |b| ensures Allowed(b[i]) { assert (a + b)[|a| + i] == b[i]; }
    }
  }

  lemma AllowedSplit(s: string, n: nat)
    requires n <= |s|
    ensures AllAllowed(s) <==> AllAllowed(s[..n]) && AllAllowed(s[n..])
  {
    assert s == s[..n] + s[n..];
    AllowedAppend(s[..n], s[n..]);
  }

  /** The glyph pass turns exactly the admissible characters into allowed ones. */
  lemma AllowedGlyphs(input: string)
    ensures AllAllowed(ReplaceGlyphs(input)) <==>
      forall i :: 0 <= i < |input| ==> Admissible(input[i])
  {
    var g := ReplaceGlyphs(input);
    if AllAllowed(g) {
      forall i | 0 <= i < |input| ensures Admissible(input[i]) { assert Allowed(g[i]); }
    }
  }

  lemma MathNameAllowed(name: string)
    requires name in FuncNames
    ensures AllAllowed(MathName(name) + "(")
  {
  }

  /** A matched call `name\s*(` consists of allowed characters. */
  lemma CallAllowed(s: string, name: string, n: nat)
    requires name in FuncNames && CallLength(s, name) == Some(n)
    ensures AllAllowed(s[..n])
  {
    forall i | 0 <= i < n ensures Allowed(s[i]) {
      if i < |name| {
        StartsWithAt(s, name, i);
      } else if i < n - 1 {
        assert s[i] == s[|name|..n - 1][i - |name|];
      }
    }
  }

  lemma AllowedCons(s: string)
    requires s != []
    ensures AllAllowed(s) <==> Allowed(s[0]) && AllAllowed(s[1..])
  {
    AllowedSplit(s, 1);
    assert s[..1] == [s[0]];
  }

  /** A character copied in front of a rewritten rest keeps the verdict of the text it came from. */
  lemma AllowedCopy(s: string, out: string, rest: string)
    requires s != [] && out == [s[0]] + rest
    requires AllAllowed(rest) <==> AllAllowed(s[1..])
    ensures AllAllowed(out) <==> AllAllowed(s)
  {
    AllowedCons(s);
    AllowedAppend([s[0]], rest);
    assert AllAllowed([s[0]]) <==> Allowed(s[0]) by { assert [s[0]][0] == s[0]; }
  }

  /** A replaced match and the text it came from are both wholly allowed. */
  lemma AllowedReplace(s: string, n: nat, repl: string, out: string, rest: string)
    requires n <= |s| && AllAllowed(s[..n]) && AllAllowed(repl) && out == repl + rest
    requires AllAllowed(rest) <==> AllAllowed(s[n..])
    ensures AllAllowed(out) <==> AllAllowed(s)
  {
    AllowedSplit(s, n);
    AllowedAppend(repl, rest);
  }

  /** The function rewrite neither brings in nor removes a character the whitelist rejects. */
  lemma {:induction false} AllowedFuncs(s: string, afterWord: bool)
    ensures AllAllowed(RewriteFuncsFrom(s, afterWord)) <==> AllAllowed(s)
    decreases |s|
  {
    if s != [] {
      if !afterWord && FuncCallAt(s).Some? {
        var (name, n) := FuncCallAt(s).value;
        RewriteFuncsTake(s, name, n);
        AllowedFuncs(s[n..], false);
        CallAllowed(s, name, n);
        MathNameAllowed(name);
        AllowedReplace(s, n, MathName(name) + "(", RewriteFuncsFrom(s, afterWord), RewriteFuncsFrom(s[n..], false));
      } else {
        RewriteFuncsSkip(s, afterWord);
        AllowedFuncs(s[1..], IsWordChar(s[0]));
        AllowedCopy(s, RewriteFuncsFrom(s, afterWord), RewriteFuncsFrom(s[1..], IsWordChar(s[0])));
      }
    }
  }

  /** A percent literal and its replacement are both wholly allowed. */
  lemma PercentAllowed(s: string, n: nat)
    requires PercentLength(s) == Some(n)
    ensures AllAllowed(s[..n]) && AllAllowed("(" + s[..n - 1] + "/100)")
  {
    var lit := s[..n - 1];
    assert AllAllowed(lit);
    AllowedAppend("(", lit);
    AllowedAppend("(" + lit, "/100)");
  }

  /** The percent rewrite neither brings in nor removes a character the whitelist rejects. */
  lemma {:induction false} AllowedPercent(s: string)
    ensures AllAllowed(RewritePercent(s)) <==> AllAllowed(s)
    decreases |s|
  {
    if s != [] {
      match PercentLength(s)
      case Some(n) =>
        RewritePercentTake(s, n);
        AllowedPercent(s[n..]);
        PercentAllowed(s, n);
        AllowedReplace(s, n, "(" + s[..n - 1] + "/100)", RewritePercent(s), RewritePercent(s[n..]));
      case None =>
        RewritePercentSkip(s);
        AllowedPercent(s[1..]);
        AllowedCopy(s, RewritePercent(s), RewritePercent(s[1..]));
    }
  }

  /**
   * The whitelist runs after the rewrites, yet its verdict depends only on
   * the raw input: it passes exactly when every input character is allowed
   * or is one of the two operator glyphs.
   */
  lemma WhitelistVerdict(input: string)
    ensures AllAllowed(Rewritten(input)) <==>
      forall i :: 0 <= i < |input| ==> Admissible(input[i])
  {
    AllowedGlyphs(input);
    AllowedFuncs(ReplaceGlyphs(input), false);
    AllowedPercent(RewriteFuncs(ReplaceGlyphs(input)));
  }

  // -------------------------------------------------------------- sanitize

  /**
   * Sanitizing fails exactly when the input holds a character outside the
   * whitelist, or the rewritten text, lower-cased, contains one of the six
   * effective keywords; the degree mode plays no part in it.
   */
  lemma SanitizeRejectsIff(input: string, degMode: bool)
    ensures Sanitize(input, degMode).Error? <==>
      (exists i :: 0 <= i < |input| && !Admissible(input[i])) ||
      (exists j :: 0 <= j < |Keywords| && Contains(Lower(Rewritten(input)), Keywords[j]))
  {
    WhitelistVerdict(input);
    BlocklistIff(Rewritten(input));
  }

  /** Without degree mode the degree pass is the identity; with it, it is applied to the comma-free text. */
  lemma DegreeModeOnlyConverts(input: string)
    ensures Sanitize(input, false).Ok? <==> Sanitize(input, true).Ok?
    ensures Sanitize(input, false).Ok? ==>
      Sanitize(input, false).text == StripCommas(Rewritten(input)) &&
      Sanitize(input, true).text == RewriteDegrees(Sanitize(input, false).text)
  {
  }

  /** A rewritten text without commas passes on to the evaluator as it is. */
  lemma SanitizeKeepsCommaFree(input: string)
    requires Sanitize(input, false).Ok? && NoComma(Rewritten(input))
    ensures Sanitize(input, false).text == Rewritten(input)
  {
    StripCommasNoComma(Rewritten(input));
  }

  /** An empty input evaluates to `"0"` whatever the mode and the evaluator. */
  lemma EmptyEvaluatesToZero(degMode: bool, engine: Engine)
    ensures EvalText("", degMode, engine) == "0"
  {
  }

  /** A non-empty input the sanitizer rejects shows `"Error"` without reaching the evaluator. */
  lemma RejectedShowsError(input: string, degMode: bool, engine: Engine)
    requires input != [] && Sanitize(input, degMode).Error?
    ensures EvalText(input, degMode, engine) == "Error"
  {
  }

  // -------------------------------------------------------------- examples

  /** A word of letters that does not start like a function name is left by the rewrites. */
  lemma PlainWordUnchanged(s: string)
    requires s != [] && forall i :: 0 <= i < |s| ==> IsAsciiLetter(s[i])
    requires s[0] != 's' && s[0] != 'c' && s[0] != 't' && s[0] != 'l'
    ensures Rewritten(s) == s
  {
    NoCallAtHead(s);
    assert NoCallFrom(s, false) by {
      forall i | 0 <= i < |s|
        ensures (if i == 0 then false else IsWordChar(s[i - 1])) || FuncCallAt(s[i..]).None?
      {
        if i == 0 { assert s[0..] == s; }
      }
    }
    RewriteFuncsUnchanged(s, false);
    assert ReplaceGlyphs(s) == s;
    RewritePercentUnchanged(s);
  }

  lemma LowerEval()
    ensures Lower("EVAL") == "eval"
  {
  }

  lemma EvalIsBlocked()
    ensures HitsBlocklist("eval")
  {
    StartsWithAppend("eval", "");
    assert "eval" + "" == "eval";
    assert Contains("eval", Blocked[4]);
  }

  /** `"EVAL"` is rejected: the blocklist compares case-insensitively. */
  lemma UpperCaseKeywordRejected()
    ensures Sanitize("EVAL", false) == Error
  {
    PlainWordUnchanged("EVAL");
    LowerEval();
    EvalIsBlocked();
  }

  lemma LowerFunction()
    ensures Lower("Function") == "function"
  {
  }

  lemma FunctionNotBlocked()
    ensures !HitsBlocklist("function")
  {
    var lower := "function";
    assert lower == Lower("Function") by { LowerFunction(); }
    forall j | 0 <= j < |Blocked| ensures !Contains(lower, Blocked[j]) {
      if j == 0 {
        ContainsNeedsRoom(lower, Blocked[j]);
      } else if j == 5 {
        FunctionEntryInert("Function");
      } else {
        ContainsNeedsHead(lower, Blocked[j]);
      }
    }
  }

  /** `"Function"` passes the blocklist untouched, its entry notwithstanding. */
  lemma FunctionPassesBlocklist()
    ensures Sanitize("Function", false) == Ok("Function")
  {
    PlainWordUnchanged("Function");
    LowerFunction();
    FunctionNotBlocked();
    assert AllAllowed("Function");
    StripCommasNoComma("Function");
  }

  /**
   * Commas are stripped after the blocklist has looked at the text, so a
   * keyword split by a comma reaches the evaluator whole: `"ev,al"` passes
   * and becomes `"eval"`, a text the blocklist rejects.
   */
  lemma CommaJoinsKeyword()
    ensures Sanitize("ev,al", false) == Ok("eval")
    ensures HitsBlocklist("eval")
  {
    SplitKeywordRewritten();
    SplitKeywordAllowed();
    SplitKeywordPasses();
    SplitKeywordStripped();
    EvalIsBlocked();
  }

  lemma SplitKeywordRewritten()
    ensures Rewritten("ev,al") == "ev,al"
  {
    var s := "ev,al";
    assert RewriteFuncs(ReplaceGlyphs(s)) == s by {
      assert ReplaceGlyphs(s) == s;
      SplitKeywordNoCall();
      RewriteFuncsUnchanged(s, false);
    }
    assert RewritePercent(s) == s by {
      RewritePercentUnchanged(s);
    }
  }

  lemma SplitKeywordNoCall()
    ensures NoCallFrom("ev,al", false)
  {
    var s := "ev,al";
    forall i | 0 <= i < |s|
      ensures (if i == 0 then false else IsWordChar(s[i - 1])) || FuncCallAt(s[i..]).None?
    {
      if i < 4 {
        assert s[i..][0] == s[i];
        NoCallAtHead(s[i..]);
      }
    }
  }

  lemma SplitKeywordAllowed()
    ensures AllAllowed("ev,al") && Lower("ev,al") == "ev,al"
  {
  }

  lemma SplitKeywordPasses()
    ensures !HitsBlocklist("ev,al")
  {
    var s := "ev,al";
    forall j | 0 <= j < |Blocked| ensures !Contains(s, Blocked[j]) {
      if j == 4 {
        StartsWithAt(s, "eval", 2);
        ContainsNeedsHead(s[1..], "eval");
      } else if j == 5 {
        FunctionEntryInert(s);
      } else {
        ContainsNeedsRoom(s, Blocked[j]);
      }
    }
  }

  lemma SplitKeywordStripped()
    ensures StripCommas("ev,al") == "eval"
  {
    StripCommasAppend("ev", ",al");
    StripCommasNoComma("ev");
    StripCommasNoComma("al");
    assert "ev" + ",al" == "ev,al";
    assert ",al"[1..] == "al";
    assert "ev" + "al" == "eval";
  }
}
