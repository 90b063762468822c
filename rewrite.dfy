/**
 * The text rewrites `tryEval` applies before filtering and evaluating:
 * operator glyphs, function names, percent literals and, in degree mode,
 * trigonometric arguments. Each global regular-expression replacement is a
 * left-to-right scan: where the pattern matches, the match is replaced and
 * the scan resumes after it; elsewhere one character is copied.
 */
module Rewrite {
  import opened Wrappers
  import opened Text

  // ---------------------------------------------------------------- glyphs

  /** `.replace(/a/g, b)` for a single character `a`. */
  function ReplaceChar(s: string, a: char, b: char): (r: string)
    ensures |r| == |s|
    ensures forall i :: 0 <= i < |s| ==> r[i] == if s[i] == a then b else s[i]
  {
    if s == [] then [] else [if s[0] == a then b else s[0]] + ReplaceChar(s[1..], a, b)
  }

  /** The multiplication and division signs become `*` and `/`; nothing else changes. */
  function ReplaceGlyphs(s: string): (r: string)
    ensures |r| == |s|
    ensures forall i :: 0 <= i < |s| ==>
      r[i] == if s[i] == '\U{00D7}' then '*' else if s[i] == '\U{00F7}' then '/' else s[i]
    ensures forall i :: 0 <= i < |r| ==> r[i] != '\U{00D7}' && r[i] != '\U{00F7}'
  {
    ReplaceChar(ReplaceChar(s, '\U{00D7}', '*'), '\U{00F7}', '/')
  }

  // -------------------------------------------------------- function names

  /** The alternation `sin|cos|tan|log|ln|sqrt`, in the order it is tried. */
  const FuncNames: seq<string> := ["sin", "cos", "tan", "log", "ln", "sqrt"]

  /** `funcMap`: the `Math` member each calculator function name stands for. */
  function MathName(name: string): string
    requires name in FuncNames
  {
    if name == "sin" then "Math.sin"
    else if name == "cos" then "Math.cos"
    else if name == "tan" then "Math.tan"
    else if name == "log" then "Math.log10"
    else if name == "ln" then "Math.log"
    else "Math.sqrt"
  }

  /** Length of the match of `name\s*\(` at the start of `s`, if there is one. */
  function CallLength(s: string, name: string): (n: Option<nat>)
    ensures n.Some? ==> |name| < n.value <= |s| && s[n.value - 1] == '('
    ensures n.Some? ==> StartsWith(s, name) && AllSpace(s[|name|..n.value - 1])
  {
    if StartsWith(s, name) then
      var k := |name| + SpaceRun(s[|name|..]);
      assert s[|name|..k] == s[|name|..][..k - |name|];
      if k < |s| && s[k] == '(' then Some(k + 1) else None
    else None
  }

  /** The first of `names` whose call pattern matches at the start of `s`, with the match length. */
  function FirstCall(s: string, names: seq<string>): (m: Option<(string, nat)>)
    ensures m.Some? ==> m.value.0 in names && CallLength(s, m.value.0) == Some(m.value.1)
  {
    if names == [] then None
    else match CallLength(s, names[0])
      case Some(n) => Some((names[0], n))
      case None => FirstCall(s, names[1..])
  }

  /** The call of a function of the list that starts `s`, if any. */
  function FuncCallAt(s: string): (m: Option<(string, nat)>)
    ensures m.Some? ==> m.value.0 in FuncNames && CallLength(s, m.value.0) == Some(m.value.1)
  {
    FirstCall(s, FuncNames)
  }

  /**
   * `replace(/\b(sin|cos|tan|log|ln|sqrt)\s*\(/g, ...)` on the rest `s` of
   * the text, where `afterWord` says whether the character before `s` is a
   * word character (every name starts with a letter, so `\b` holds exactly
   * when it is not).
   */
  function RewriteFuncsFrom(s: string, afterWord: bool): string
    decreases |s|
  {
    if s == [] then []
    else if !afterWord && FuncCallAt(s).Some? then
      var (name, n) := FuncCallAt(s).value;
      MathName(name) + "(" + RewriteFuncsFrom(s[n..], false)
    else [s[0]] + RewriteFuncsFrom(s[1..], IsWordChar(s[0]))
  }

  function RewriteFuncs(s: string): string {
    RewriteFuncsFrom(s, false)
  }

  lemma RewriteFuncsTake(s: string, name: string, n: nat)
    requires FuncCallAt(s) == Some((name, n))
    ensures RewriteFuncsFrom(s, false) == MathName(name) + "(" + RewriteFuncsFrom(s[n..], false)
  {
  }

  lemma RewriteFuncsSkip(s: string, afterWord: bool)
    requires s != [] && (afterWord || FuncCallAt(s).None?)
    ensures RewriteFuncsFrom(s, afterWord) == [s[0]] + RewriteFuncsFrom(s[1..], IsWordChar(s[0]))
  {
  }

  /** No position of `s` begins a whole-word call the rewrite would replace. */
  predicate NoCallFrom(s: string, afterWord: bool) {
    forall i :: 0 <= i < |s| ==>
      (if i == 0 then afterWord else IsWordChar(s[i - 1])) || FuncCallAt(s[i..]).None?
  }

  /** Text with no whole-word call is left unchanged. */
  lemma {:induction false} RewriteFuncsUnchanged(s: string, afterWord: bool)
    requires NoCallFrom(s, afterWord)
    ensures RewriteFuncsFrom(s, afterWord) == s
    decreases |s|
  {
    if s != [] {
      NoCallRest(s, afterWord);
      RewriteFuncsSkip(s, afterWord);
      RewriteFuncsUnchanged(s[1..], IsWordChar(s[0]));
      ConsAppend(s, []);
    }
  }

  lemma NoCallRest(s: string, afterWord: bool)
    requires s != [] && NoCallFrom(s, afterWord)
    ensures afterWord || FuncCallAt(s).None?
    ensures NoCallFrom(s[1..], IsWordChar(s[0]))
  {
    assert s[0..] == s;
    forall i | 0 <= i < |s[1..]|
      ensures (if i == 0 then IsWordChar(s[0]) else IsWordChar(s[1..][i - 1]))
           || FuncCallAt(s[1..][i..]).None?
    {
      assert s[1..][i..] == s[i + 1..];
    }
  }

  /**
   * Text without letters holds no call and is copied unchanged by the
   * function-name pass, which goes on after its last character.
   */
  lemma {:induction false} RewriteFuncsCopy(p: string, t: string, afterWord: bool)
    requires forall i :: 0 <= i < |p| ==> !IsAsciiLetter(p[i])
    ensures RewriteFuncsFrom(p + t, afterWord)
         == p + RewriteFuncsFrom(t, if p == [] then afterWord else IsWordChar(p[|p| - 1]))
    decreases |p|
  {
    if p != [] {
      assert (p + t)[0] == p[0];
      assert (p + t)[1..] == p[1..] + t;
      NoCallAtHead(p + t);
      RewriteFuncsSkip(p + t, afterWord);
      RewriteFuncsCopy(p[1..], t, IsWordChar(p[0]));
      assert p[1..] != [] ==> p[1..][|p[1..]| - 1] == p[|p| - 1];
      ConsAppend(p, RewriteFuncsFrom(t, IsWordChar(p[|p| - 1])));
    } else {
      assert p + t == t;
    }
  }

  /** Every listed name starts with `s`, `c`, `t` or `l`, so no call starts with another character. */
  lemma NoCallAtHead(s: string)
    requires s != [] && s[0] != 's' && s[0] != 'c' && s[0] != 't' && s[0] != 'l'
    ensures FuncCallAt(s).None?
  {
    forall name | name in FuncNames ensures CallLength(s, name).None? {
      StartsWithAt(s, name, 0);
    }
    NoFirstCall(s, FuncNames);
  }

  lemma {:induction false} NoFirstCall(s: string, names: seq<string>)
    requires forall name | name in names :: CallLength(s, name).None?
    ensures FirstCall(s, names).None?
    decreases |names|
  {
    if names != [] {
      NoFirstCall(s, names[1..]);
    }
  }

  /** Text without letters is left unchanged by the function rewrite. */
  lemma NoLettersUnchanged(s: string, afterWord: bool)
    requires forall i :: 0 <= i < |s| ==> !IsAsciiLetter(s[i])
    ensures RewriteFuncsFrom(s, afterWord) == s
  {
    forall i | 0 <= i < |s|
      ensures (if i == 0 then afterWord else IsWordChar(s[i - 1])) || FuncCallAt(s[i..]).None?
    {
      NoCallAtHead(s[i..]);
    }
    RewriteFuncsUnchanged(s, afterWord);
  }

  /** Where a call's name, whitespace and `(` lie in a text built from them. */
  lemma CallLengthOn(name: string, gap: string, rest: string)
    requires name != [] && AllSpace(gap)
    ensures var s := name + (gap + ("(" + rest));
      CallLength(s, name) == Some(|name| + |gap| + 1) && s[|name| + |gap| + 1..] == rest
  {
    var s := name + (gap + ("(" + rest));
    StartsWithAppend(name, gap + ("(" + rest));
    DropAppend(name, gap + ("(" + rest));
    SpaceRunAppend(gap, "(" + rest);
    DropAppend(gap, "(" + rest);
    assert s[|name| + |gap|..] == "(" + rest;
  }

  /**
   * In a list of names that differ from `name` in one of their first two
   * letters, a call of `name` is the one found.
   */
  lemma {:induction false} FirstCallFinds(s: string, names: seq<string>, name: string)
    requires name in names && |name| >= 2 && CallLength(s, name).Some?
    requires forall j :: 0 <= j < |names| && names[j] != name ==>
      |names[j]| >= 2 && (names[j][0] != name[0] || names[j][1] != name[1])
    ensures FirstCall(s, names) == Some((name, CallLength(s, name).value))
    decreases |names|
  {
    StartsWithAt(s, name, 0);
    StartsWithAt(s, name, 1);
    if names[0] != name {
      StartsWithAt(s, names[0], 0);
      StartsWithAt(s, names[0], 1);
      assert CallLength(s, names[0]).None?;
      forall j | 0 <= j < |names[1..]| && names[1..][j] != name
        ensures |names[1..][j]| >= 2 && (names[1..][j][0] != name[0] || names[1..][j][1] != name[1])
      {
        assert names[1..][j] == names[j + 1];
      }
      FirstCallFinds(s, names[1..], name);
    }
  }

  /** At a call of a listed name, that name is the one found. */
  lemma FuncCallAtFinds(s: string, name: string)
    requires name in FuncNames && CallLength(s, name).Some?
    ensures FuncCallAt(s) == Some((name, CallLength(s, name).value))
  {
    FirstCallFinds(s, FuncNames, name);
  }

  /**
   * A name of the list, the whitespace after it and its `(` become the
   * `Math` member and `(`; the scan resumes right after the parenthesis.
   */
  lemma RewriteFuncsCall(name: string, gap: string, rest: string)
    requires name in FuncNames && AllSpace(gap)
    ensures RewriteFuncs(name + gap + "(" + rest) == MathName(name) + "(" + RewriteFuncs(rest)
  {
    var s := name + (gap + ("(" + rest));
    var n := |name| + |gap| + 1;
    CallLengthOn(name, gap, rest);
    FuncCallAtFinds(s, name);
    RewriteFuncsTake(s, name, n);
    Assoc4(name, gap, "(", rest);
  }

  /** A call after letter-free text that does not end in a word character is rewritten too. */
  lemma RewriteFuncsCallAfter(p: string, name: string, gap: string, rest: string)
    requires name in FuncNames && AllSpace(gap)
    requires forall i :: 0 <= i < |p| ==> !IsAsciiLetter(p[i])
    requires p != [] ==> !IsWordChar(p[|p| - 1])
    ensures RewriteFuncs(p + (name + gap + "(" + rest)) == p + (MathName(name) + "(" + RewriteFuncs(rest))
  {
    RewriteFuncsCopy(p, name + gap + "(" + rest, false);
    RewriteFuncsCall(name, gap, rest);
  }

  // ------------------------------------------------------- percent literals

  /** Length of the match of `\d+(\.\d+)?%` at the start of `s`, if there is one. */
  function PercentLength(s: string): (n: Option<nat>)
    ensures n.Some? ==> 2 <= n.value <= |s| && s[n.value - 1] == '%'
    ensures n.Some? ==> forall i :: 0 <= i < n.value - 1 ==> IsDigit(s[i]) || s[i] == '.'
    ensures n.Some? ==> IsDecimal(s[..n.value - 1])
  {
    var d := DigitRun(s);
    var e := if d + 1 < |s| && s[d] == '.' && IsDigit(s[d + 1]) then d + 1 + DigitRun(s[d + 1..]) else d;
    assert forall i :: 0 <= i < d ==> s[..d][i] == s[i];
    assert e > d ==> forall i :: d + 1 <= i < e ==> s[i] == s[d + 1..][..e - d - 1][i - d - 1];
    if 0 < d && e < |s| && s[e] == '%' then
      PercentMatchIsDecimal(s, d, e);
      Some(e + 1)
    else None
  }

  /** What `\d+(\.\d+)?` takes in before the `%` is a decimal in full. */
  lemma PercentMatchIsDecimal(s: string, d: nat, e: nat)
    requires d == DigitRun(s) && 0 < d && e < |s| && s[e] == '%'
    requires e == if d + 1 < |s| && s[d] == '.' && IsDigit(s[d + 1]) then d + 1 + DigitRun(s[d + 1..]) else d
    ensures IsDecimal(s[..e])
  {
    var t := s[..e];
    DigitRunPrefix(s, e);
    if e > d {
      var f := s[d + 1..];
      var g := f[..e - d - 1];
      DigitRunPrefix(f, e - d - 1);
      assert t[d + 1..] == g;
      assert t[d] == '.' && DigitRun(t[d + 1..]) == |t| - d - 1;
    }
  }

  /** `replace(/(\d+(\.\d+)?)%/g, '($1/100)')`. */
  function RewritePercent(s: string): string
    decreases |s|
  {
    if s == [] then []
    else match PercentLength(s)
      case Some(n) => "(" + s[..n - 1] + "/100)" + RewritePercent(s[n..])
      case None => [s[0]] + RewritePercent(s[1..])
  }

  lemma RewritePercentTake(s: string, n: nat)
    requires s != [] && PercentLength(s) == Some(n)
    ensures RewritePercent(s) == "(" + s[..n - 1] + "/100)" + RewritePercent(s[n..])
  {
  }

  lemma RewritePercentSkip(s: string)
    requires s != [] && PercentLength(s).None?
    ensures RewritePercent(s) == [s[0]] + RewritePercent(s[1..])
  {
  }

  /** Text without `%` is left unchanged. */
  lemma {:induction false} RewritePercentUnchanged(s: string)
    requires forall i :: 0 <= i < |s| ==> s[i] != '%'
    ensures RewritePercent(s) == s
    decreases |s|
  {
    if s != [] {
      RewritePercentSkip(s);
      RewritePercentUnchanged(s[1..]);
      ConsAppend(s, []);
    }
  }

  /**
   * Text without `%` whose last character cannot continue a number is copied
   * unchanged by the percent pass: no match starts inside it.
   */
  lemma {:induction false} RewritePercentCopy(p: string, t: string)
    requires forall i :: 0 <= i < |p| ==> p[i] != '%'
    requires p != [] ==> !IsDigit(p[|p| - 1]) && p[|p| - 1] != '.'
    ensures RewritePercent(p + t) == p + RewritePercent(t)
    decreases |p|
  {
    if p != [] {
      NoPercentFrom(p, t);
      assert (p + t)[0] == p[0];
      assert (p + t)[1..] == p[1..] + t;
      RewritePercentSkip(p + t);
      RewritePercentCopy(p[1..], t);
      ConsAppend(p, RewritePercent(t));
    } else {
      assert p + t == t;
    }
  }

  /** A percent literal after such text is rewritten, and the text before it is kept. */
  lemma RewritePercentAfter(p: string, num: string, rest: string)
    requires forall i :: 0 <= i < |p| ==> p[i] != '%'
    requires p != [] ==> !IsDigit(p[|p| - 1]) && p[|p| - 1] != '.'
    requires IsDecimal(num)
    ensures RewritePercent(p + (num + "%" + rest)) == p + ("(" + num + "/100)" + RewritePercent(rest))
  {
    RewritePercentCopy(p, num + "%" + rest);
    RewritePercentLiteral(num, rest);
  }

  lemma NoPercentFrom(p: string, t: string)
    requires p != [] && forall i :: 0 <= i < |p| ==> p[i] != '%'
    requires !IsDigit(p[|p| - 1]) && p[|p| - 1] != '.'
    ensures PercentLength(p + t).None?
  {
    var s := p + t;
    assert forall i :: 0 <= i < |p| ==> s[i] == p[i];
  }

  lemma PercentLengthOfDecimal(num: string, rest: string)
    requires IsDecimal(num)
    ensures var s := num + ("%" + rest);
      PercentLength(s) == Some(|num| + 1) && s[..|num|] == num && s[|num| + 1..] == rest
  {
    var s := num + ("%" + rest);
    var d := DigitRun(num);
    DigitRunAppend(num, "%" + rest);
    if d < |num| {
      var f := num[d + 1..];
      assert s[d + 1..] == f + ("%" + rest);
      DigitRunAppend(f, "%" + rest);
      assert f[..|f|] == f;
      assert s[d] == '.' && s[d + 1] == f[0];
    } else {
      assert s[d] == '%';
    }
    DropAppend(num, "%" + rest);
    assert s[|num|..][1..] == rest;
  }

  /** A decimal followed by `%` becomes that decimal over 100, in parentheses. */
  lemma RewritePercentLiteral(num: string, rest: string)
    requires IsDecimal(num)
    ensures RewritePercent(num + "%" + rest) == "(" + num + "/100)" + RewritePercent(rest)
  {
    var s := num + ("%" + rest);
    assert RewritePercent(s) == "(" + num + "/100)" + RewritePercent(rest) by {
      PercentLengthOfDecimal(num, rest);
      RewritePercentTake(s, |num| + 1);
    }
    assert num + "%" + rest == s;
  }

  // ------------------------------------------------------ degree conversion

  /** The alternation `sin|cos|tan` of the degree pass. */
  const TrigNames: seq<string> := ["sin", "cos", "tan"]

  /** Length of the longest prefix of `s` without parentheses: a greedy `[^()]*`. */
  function NonParenRun(s: string): (n: nat)
    ensures n <= |s|
    ensures forall i :: 0 <= i < n ==> s[i] != '(' && s[i] != ')'
    ensures n < |s| ==> s[n] == '(' || s[n] == ')'
  {
    if s != [] && s[0] != '(' && s[0] != ')' then 1 + NonParenRun(s[1..]) else 0
  }

  predicate NoParens(s: string) { forall i :: 0 <= i < |s| ==> s[i] != '(' && s[i] != ')' }

  lemma {:induction false} NonParenRunAppend(a: string, b: string)
    requires NoParens(a) && b != [] && (b[0] == '(' || b[0] == ')')
    ensures NonParenRun(a + b) == |a|
    decreases |a|
  {
    if a != [] {
      assert (a + b)[1..] == a[1..] + b;
      NonParenRunAppend(a[1..], b);
    } else {
      assert a + b == b;
    }
  }

  /** A match of `Math\.(name)\s*\(([^()]+)\)`: the name, the argument and the match length. */
  datatype TrigMatch = TrigMatch(name: string, arg: string, len: nat)

  /**
   * Length of the match of `\s*\(([^()]+)\)` at the start of `t`, with the
   * captured argument, if there is one.
   */
  function ArgCall(t: string): (m: Option<(string, nat)>)
    ensures m.Some? ==> 0 < |m.value.0| && |m.value.0| + 1 < m.value.1 <= |t|
    ensures m.Some? ==> m.value.0 == t[m.value.1 - 1 - |m.value.0|..m.value.1 - 1]
    ensures m.Some? ==> NoParens(m.value.0)
  {
    var k := SpaceRun(t);
    if k < |t| && t[k] == '(' then
      var a := NonParenRun(t[k + 1..]);
      if 0 < a && k + 1 + a < |t| && t[k + 1 + a] == ')' then
        assert t[k + 1..k + 1 + a] == t[k + 1..][..a];
        Some((t[k + 1..k + 1 + a], k + 2 + a))
      else None
    else None
  }

  /** The match of `Math\.name\s*\(([^()]+)\)` at the start of `s`, if there is one. */
  function TrigCall(s: string, name: string): (m: Option<TrigMatch>)
    ensures m.Some? ==> m.value.name == name && 0 < |m.value.arg| && |m.value.arg| + 1 < m.value.len <= |s|
    ensures m.Some? ==> m.value.arg == s[m.value.len - 1 - |m.value.arg|..m.value.len - 1]
    ensures m.Some? ==> NoParens(m.value.arg)
    ensures m.Some? ==> StartsWith(s, "Math." + name)
  {
    var head := "Math." + name;
    if StartsWith(s, head) then
      var m := WithHead(name, ArgCall(s[|head|..]));
      assert m.Some? ==> m.value.arg == s[|head|..][m.value.len - |head| - 1 - |m.value.arg|..m.value.len - |head| - 1];
      m
    else None
  }

  /** A match of the argument pattern after `Math.name`, as a match of the whole pattern. */
  function WithHead(name: string, a: Option<(string, nat)>): (m: Option<TrigMatch>)
    ensures m.Some? <==> a.Some?
    ensures m.Some? ==> m == Some(TrigMatch(name, a.value.0, |name| + 5 + a.value.1))
  {
    match a
    case Some((arg, n)) => Some(TrigMatch(name, arg, |name| + 5 + n))
    case None => None
  }

  /** The first of `names` whose degree pattern matches at the start of `s`. */
  function FirstTrig(s: string, names: seq<string>): (m: Option<TrigMatch>)
    ensures m.Some? ==> m.value.name in names && TrigCall(s, m.value.name) == m
  {
    if names == [] then None
    else match TrigCall(s, names[0])
      case Some(t) => Some(t)
      case None => FirstTrig(s, names[1..])
  }

  /** The degree-pattern match that starts `s`, if any. */
  function TrigCallAt(s: string): (m: Option<TrigMatch>)
    ensures m.Some? ==> m.value.name in TrigNames && TrigCall(s, m.value.name) == m
  {
    FirstTrig(s, TrigNames)
  }

  /** The replacement `Math.$1((($2)*Math.PI/180))`. */
  function Radians(name: string, arg: string): string {
    "Math." + name + "(((" + arg + ")*Math.PI/180))"
  }

  /** `replace(/Math\.(sin|cos|tan)\s*\(([^()]+)\)/g, 'Math.$1((($2)*Math.PI/180))')`. */
  function RewriteDegrees(s: string): string
    decreases |s|
  {
    if s == [] then []
    else match TrigCallAt(s)
      case Some(m) => Radians(m.name, m.arg) + RewriteDegrees(s[m.len..])
      case None => [s[0]] + RewriteDegrees(s[1..])
  }

  lemma RewriteDegreesTake(s: string, m: TrigMatch)
    requires s != [] && TrigCallAt(s) == Some(m)
    ensures RewriteDegrees(s) == Radians(m.name, m.arg) + RewriteDegrees(s[m.len..])
  {
  }

  lemma RewriteDegreesSkip(s: string)
    requires s != [] && TrigCallAt(s).None?
    ensures RewriteDegrees(s) == [s[0]] + RewriteDegrees(s[1..])
  {
  }

  /** The argument pattern on whitespace, `(`, a non-empty argument free of parentheses and `)`. */
  lemma ArgCallMatches(gap: string, arg: string, rest: string)
    requires AllSpace(gap) && arg != [] && NoParens(arg)
    ensures var t := gap + ("(" + (arg + (")" + rest)));
      ArgCall(t) == Some((arg, |gap| + 2 + |arg|)) && t[|gap| + 2 + |arg|..] == rest
  {
    var t := gap + ("(" + (arg + (")" + rest)));
    SpaceRunAppend(gap, "(" + (arg + (")" + rest)));
    DropAppend(gap, "(" + (arg + (")" + rest)));
    var u := t[|gap| + 1..];
    assert u == arg + (")" + rest);
    NonParenRunAppend(arg, ")" + rest);
    DropAppend(arg, ")" + rest);
    assert t[|gap| + 1..|gap| + 1 + |arg|] == u[..|arg|];
    assert t[|gap| + 1 + |arg|] == u[|arg|];
    assert t[|gap| + 2 + |arg|..] == u[|arg|..][1..];
  }

  /** The argument pattern fails when the argument runs into `(` before any `)`. */
  lemma ArgCallNested(gap: string, arg: string, rest: string)
    requires AllSpace(gap) && NoParens(arg)
    ensures ArgCall(gap + ("(" + (arg + ("(" + rest)))).None?
  {
    var t := gap + ("(" + (arg + ("(" + rest)));
    SpaceRunAppend(gap, "(" + (arg + ("(" + rest)));
    DropAppend(gap, "(" + (arg + ("(" + rest)));
    assert t[|gap| + 1..] == arg + ("(" + rest);
    NonParenRunAppend(arg, "(" + rest);
  }

  lemma TrigCallOn(name: string, t: string)
    ensures var s := "Math." + name + t;
      StartsWith(s, "Math." + name) && TrigCall(s, name) == WithHead(name, ArgCall(t))
  {
    var head := "Math." + name;
    StartsWithAppend(head, t);
    DropAppend(head, t);
    assert (head + t)[|head|..] == t;
  }

  /** A match of the argument pattern is whitespace, `(`, the argument and `)`. */
  lemma ArgCallShape(t: string)
    ensures var m := ArgCall(t);
      m.Some? ==> var k := m.value.1 - 2 - |m.value.0|;
        AllSpace(t[..k]) && t[..m.value.1] == t[..k] + "(" + m.value.0 + ")"
  {
    var m := ArgCall(t);
    if m.Some? {
      var k := m.value.1 - 2 - |m.value.0|;
      assert k == SpaceRun(t);
      var w := t[..k] + "(" + m.value.0 + ")";
      assert |w| == m.value.1;
      forall j | 0 <= j < m.value.1 ensures t[..m.value.1][j] == w[j] {
        if k < j < m.value.1 - 1 {
          assert w[j] == m.value.0[j - k - 1];
        }
      }
    }
  }

  /**
   * A degree match is `Math.name`, whitespace, `(`, a non-empty argument
   * free of parentheses, and `)`.
   */
  lemma TrigCallShape(s: string, name: string)
    ensures var m := TrigCall(s, name);
      m.Some? ==> var k := m.value.len - 2 - |m.value.arg|;
        |name| + 5 <= k && AllSpace(s[|name| + 5..k]) && m.value.arg != [] && NoParens(m.value.arg) &&
        s[..m.value.len] == "Math." + name + s[|name| + 5..k] + "(" + m.value.arg + ")"
  {
    var m := TrigCall(s, name);
    if m.Some? {
      var head := "Math." + name;
      var t := s[|head|..];
      var a := ArgCall(t);
      assert m == WithHead(name, a);
      var arg, n := a.value.0, a.value.1;
      var k := n - 2 - |arg|;
      ArgCallShape(t);
      StartsWithIff(s, head);
      ShapeAfterHead(s, |head|, k, n, arg);
    }
  }

  /** The shape of a match found after the first `h` characters, restated on the whole text. */
  lemma ShapeAfterHead(s: string, h: nat, k: nat, n: nat, arg: string)
    requires h <= |s| && k + 2 + |arg| == n <= |s| - h
    requires AllSpace(s[h..][..k]) && s[h..][..n] == s[h..][..k] + "(" + arg + ")"
    ensures AllSpace(s[h..h + k]) && s[..h + n] == s[..h] + s[h..h + k] + "(" + arg + ")"
  {
    var t := s[h..];
    assert s[h..h + k] == t[..k];
    assert s[..h + n] == s[..h] + t[..n];
  }

  lemma TrigCallWith(name: string, t: string, arg: string, n: nat)
    requires ArgCall(t) == Some((arg, n))
    ensures TrigCall("Math." + name + t, name) == Some(TrigMatch(name, arg, |name| + 5 + n))
  {
    TrigCallOn(name, t);
  }

  /** The degree pattern of `name` on a call with a non-empty argument free of parentheses. */
  lemma TrigCallMatches(name: string, gap: string, arg: string, rest: string)
    requires AllSpace(gap) && arg != [] && NoParens(arg)
    ensures var s := "Math." + name + (gap + ("(" + (arg + (")" + rest))));
      var m := TrigMatch(name, arg, |name| + 5 + |gap| + 2 + |arg|);
      TrigCall(s, name) == Some(m) && s[m.len..] == rest
  {
    var t := gap + ("(" + (arg + (")" + rest)));
    ArgCallMatches(gap, arg, rest);
    TrigCallWith(name, t, arg, |gap| + 2 + |arg|);
    DropAppendAt("Math." + name, t, |gap| + 2 + |arg|);
  }

  /** The degree pattern of `name` does not match when the argument runs into `(`. */
  lemma TrigCallNested(name: string, gap: string, arg: string, rest: string)
    requires AllSpace(gap) && NoParens(arg)
    ensures var s := "Math." + name + (gap + ("(" + (arg + ("(" + rest))));
      StartsWith(s, "Math." + name) && TrigCall(s, name).None?
  {
    ArgCallNested(gap, arg, rest);
    TrigCallOn(name, gap + ("(" + (arg + ("(" + rest))));
  }

  /** In a list of names with distinct first letters, the degree pattern of `name` is the one tried. */
  lemma {:induction false} FirstTrigFinds(s: string, names: seq<string>, name: string)
    requires name != [] && StartsWith(s, "Math." + name)
    requires forall j :: 0 <= j < |names| && names[j] != name ==> names[j] != [] && names[j][0] != name[0]
    ensures FirstTrig(s, names) == if name in names then TrigCall(s, name) else None
    decreases |names|
  {
    if names != [] {
      StartsWithAt(s, "Math." + name, 5);
      forall j | 0 <= j < |names[1..]| && names[1..][j] != name
        ensures names[1..][j] != [] && names[1..][j][0] != name[0]
      {
        assert names[1..][j] == names[j + 1];
      }
      FirstTrigFinds(s, names[1..], name);
      if names[0] != name {
        StartsWithAt(s, "Math." + names[0], 5);
        assert TrigCall(s, names[0]).None?;
        assert name in names <==> name in names[1..];
      }
    }
  }

  /** At a text that starts with `Math.` and one of the three names, that name's pattern decides. */
  lemma TrigCallAtFinds(s: string, name: string)
    requires name in TrigNames && StartsWith(s, "Math." + name)
    ensures TrigCallAt(s) == TrigCall(s, name)
  {
    FirstTrigFinds(s, TrigNames, name);
  }

  /** A call with a non-empty argument free of parentheses gets its argument scaled by pi/180. */
  lemma RewriteDegreesCall(name: string, gap: string, arg: string, rest: string)
    requires name in TrigNames && AllSpace(gap)
    requires arg != [] && NoParens(arg)
    ensures RewriteDegrees("Math." + name + gap + "(" + arg + ")" + rest)
         == Radians(name, arg) + RewriteDegrees(rest)
  {
    var s := "Math." + name + (gap + ("(" + (arg + (")" + rest))));
    var m := TrigMatch(name, arg, |name| + 5 + |gap| + 2 + |arg|);
    TrigCallMatches(name, gap, arg, rest);
    TrigCallAtFinds(s, name);
    RewriteDegreesTake(s, m);
    Assoc6("Math." + name, gap, "(", arg, ")", rest);
  }

  /**
   * A call whose argument runs into another `(` before any `)` is left as it
   * is; only the text after its opening parenthesis is scanned further.
   */
  lemma RewriteDegreesNested(name: string, gap: string, arg: string, rest: string)
    requires name in TrigNames && AllSpace(gap) && NoParens(arg)
    ensures RewriteDegrees("Math." + name + gap + "(" + arg + "(" + rest)
         == "Math." + name + gap + "(" + RewriteDegrees(arg + "(" + rest)
  {
    var after := arg + ("(" + rest);
    var s := "Math." + name + (gap + ("(" + after));
    TrigCallNested(name, gap, arg, rest);
    TrigCallAtFinds(s, name);
    RewriteDegreesSkip(s);
    var copied := "ath." + name + gap + "(";
    NestedLayout(name, gap, after);
    RewriteDegreesCopy(copied, after);
    ConsAppend("M" + copied, RewriteDegrees(after));
    Assoc6("Math." + name, gap, "(", arg, "(", rest);
    assert arg + "(" + rest == after;
  }

  lemma NestedLayout(name: string, gap: string, after: string)
    requires name in TrigNames && AllSpace(gap)
    ensures var s := "Math." + name + (gap + ("(" + after));
      var copied := "ath." + name + gap + "(";
      && s[0] == 'M' && s[1..] == copied + after
      && (forall i :: 0 <= i < |copied| ==> copied[i] != 'M')
      && "M" + copied == "Math." + name + gap + "("
  {
    var copied := "ath." + name + gap + "(";
    forall i | 0 <= i < |copied| ensures copied[i] != 'M' {
      if 4 + |name| <= i < 4 + |name| + |gap| { assert copied[i] == gap[i - 4 - |name|]; }
    }
  }

  /** Text in which no `M` occurs is copied unchanged by the degree pass. */
  lemma {:induction false} RewriteDegreesCopy(p: string, t: string)
    requires forall i :: 0 <= i < |p| ==> p[i] != 'M'
    ensures RewriteDegrees(p + t) == p + RewriteDegrees(t)
    decreases |p|
  {
    if p != [] {
      assert (p + t)[0] == p[0];
      assert (p + t)[1..] == p[1..] + t;
      RewriteDegreesSkipM(p + t);
      RewriteDegreesCopy(p[1..], t);
      ConsAppend(p, RewriteDegrees(t));
    } else {
      assert p + t == t;
    }
  }

  lemma RewriteDegreesSkipM(s: string)
    requires s != [] && s[0] != 'M'
    ensures RewriteDegrees(s) == [s[0]] + RewriteDegrees(s[1..])
  {
    TrigNeedsM(s, TrigNames);
    RewriteDegreesSkip(s);
  }

  lemma {:induction false} TrigNeedsM(s: string, names: seq<string>)
    requires s != [] && s[0] != 'M'
    ensures FirstTrig(s, names).None?
    decreases |names|
  {
    if names != [] {
      TrigNeedsM(s, names[1..]);
    }
  }

  lemma RadiansNoComma(name: string, arg: string)
    requires name in TrigNames && NoComma(arg)
    ensures NoComma(Radians(name, arg))
  {
    NoCommaAppend("Math." + name + "(((", arg);
    NoCommaAppend("Math." + name + "(((" + arg, ")*Math.PI/180))");
  }

  /** The degree pass brings in no comma. */
  lemma {:induction false} RewriteDegreesNoComma(s: string)
    requires NoComma(s)
    ensures NoComma(RewriteDegrees(s))
    decreases |s|
  {
    if s != [] {
      match TrigCallAt(s)
      case Some(m) =>
        RewriteDegreesTake(s, m);
        SliceNoComma(s, m.len - 1 - |m.arg|, m.len - 1);
        RadiansNoComma(m.name, m.arg);
        SliceNoComma(s, m.len, |s|);
        RewriteDegreesNoComma(s[m.len..]);
        NoCommaAppend(Radians(m.name, m.arg), RewriteDegrees(s[m.len..]));
      case None =>
        RewriteDegreesSkip(s);
        SliceNoComma(s, 1, |s|);
        RewriteDegreesNoComma(s[1..]);
        NoCommaAppend([s[0]], RewriteDegrees(s[1..]));
    }
  }

  lemma SliceNoComma(s: string, i: nat, j: nat)
    requires NoComma(s) && i <= j <= |s|
    ensures NoComma(s[i..j])
  {
    assert forall k :: 0 <= k < j - i ==> s[i..j][k] == s[i + k];
  }

  // -------------------------------------------------------------- examples

  /** A call whose rest holds no letters: only the name, its whitespace and `(` change. */
  lemma CallOnLetterFree(name: string, gap: string, rest: string)
    requires name in FuncNames && AllSpace(gap)
    requires forall i :: 0 <= i < |rest| ==> !IsAsciiLetter(rest[i])
    ensures RewriteFuncs(name + gap + "(" + rest) == MathName(name) + "(" + rest
  {
    RewriteFuncsCall(name, gap, rest);
    NoLettersUnchanged(rest, false);
  }

  /** `asin(1)`: `sin` inside a longer word is not a whole word. */
  lemma WholeWordExample()
    ensures RewriteFuncs("asin(1)") == "asin(1)"
  {
    var s := "asin(1)";
    forall i | 0 <= i < |s|
      ensures (if i == 0 then false else IsWordChar(s[i - 1])) || FuncCallAt(s[i..]).None?
    {
      if i == 0 || i >= 5 { NoCallAtHead(s[i..]); }
    }
    RewriteFuncsUnchanged(s, false);
  }

  lemma PercentExample()
    ensures RewritePercent("50%") == "(50/100)"
  {
    assert IsDecimal("50");
    RewritePercentLiteral("50", "");
    assert "50" + "%" + "" == "50%";
  }
}
