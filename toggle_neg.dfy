/**
 * `toggleNeg`: the sign button flips the sign of the number that ends the
 * expression. The number is the match of `(\-?\d+(\.\d+)?|\))$`, and since
 * that regular expression has no global flag, the match is the leftmost
 * position from which the rest of the text is a number or a lone `)`.
 */
module Sign {
  import opened Wrappers
  import opened Text

  /** The text `\-?\d+(\.\d+)?` matches in full. */
  predicate IsNumber(t: string) {
    IsDecimal(t) || (t != [] && t[0] == '-' && IsDecimal(t[1..]))
  }

  /** The text `\-?\d+(\.\d+)?|\)` matches in full. */
  predicate IsToken(t: string) {
    IsNumber(t) || t == ")"
  }

  /** The leftmost position at or after `p` from which the rest of `s` is a token. */
  function FirstTokenFrom(s: string, p: nat): (i: Option<nat>)
    requires p <= |s|
    ensures i.Some? ==> p <= i.value < |s| && IsToken(s[i.value..])
    ensures i.Some? ==> forall j {:trigger IsToken(s[j..])} :: p <= j < i.value ==> !IsToken(s[j..])
    ensures i.None? ==> forall j {:trigger IsToken(s[j..])} :: p <= j <= |s| ==> !IsToken(s[j..])
    decreases |s| - p
  {
    if p == |s| then
      assert s[p..] == [];
      None
    else if IsToken(s[p..]) then Some(p)
    else FirstTokenFrom(s, p + 1)
  }

  function ToggleNeg(s: string): string {
    if s == [] then "-"
    else match FirstTokenFrom(s, 0)
      case None => s + "-"
      case Some(i) =>
        var token := s[i..];
        if token[|token| - 1] == ')' then s + "-"
        else if token[0] == '-' then s[..i] + token[1..]
        else s[..i] + "-" + token
  }

  /** Every character of a number is a digit, a point or a minus, and only the first can be a minus. */
  lemma NumberChars(t: string)
    ensures IsNumber(t) ==> t != [] && IsDigit(t[|t| - 1])
    ensures IsNumber(t) ==> forall k :: 0 <= k < |t| ==> IsDigit(t[k]) || t[k] == '.' || t[k] == '-'
    ensures IsNumber(t) ==> forall k :: 0 < k < |t| ==> t[k] != '-'
  {
    if !IsNumber(t) { return; }
    var u := if IsDecimal(t) then t else t[1..];
    DecimalChars(u);
    DecimalHasNoMinus(u);
    if !IsDecimal(t) {
      forall k | 0 < k < |t| ensures t[k] != '-' && (IsDigit(t[k]) || t[k] == '.') {
        assert t[k] == u[k - 1];
      }
    }
  }

  lemma DecimalChars(t: string)
    requires IsDecimal(t)
    ensures IsDigit(t[|t| - 1])
    ensures forall k :: 0 <= k < |t| ==> IsDigit(t[k]) || t[k] == '.'
  {
    var d := DigitRun(t);
    if d < |t| {
      var f := t[d + 1..];
      assert AllDigits(f[..|f|]);
      assert f[..|f|] == f;
      forall k | 0 <= k < |t| ensures IsDigit(t[k]) || t[k] == '.' {
        if k < d { assert t[..d][k] == t[k]; }
        else if k > d { assert t[k] == f[k - d - 1]; }
      }
      assert t[|t| - 1] == f[|f| - 1];
    } else {
      forall k | 0 <= k < |t| ensures IsDigit(t[k]) { assert t[..d][k] == t[k]; }
    }
  }

  /** Pins the leftmost token position. */
  lemma {:induction false} FirstTokenIs(s: string, p: nat, i: nat)
    requires p <= i < |s| && IsToken(s[i..])
    requires forall j {:trigger IsToken(s[j..])} :: p <= j < i ==> !IsToken(s[j..])
    ensures FirstTokenFrom(s, p) == Some(i)
    decreases i - p
  {
    if p < i {
      FirstTokenIs(s, p + 1, i);
    }
  }

  /**
   * No token starts inside `p` when the tail `t` ends in a digit and either
   * the last character of `p` cannot be part of a number or `t` begins with a
   * minus (a minus is only ever a number's first character).
   */
  lemma NoTokenInPrefix(p: string, t: string, j: nat)
    requires j < |p| && t != [] && IsDigit(t[|t| - 1])
    requires !(IsDigit(p[|p| - 1]) || p[|p| - 1] == '.' || p[|p| - 1] == '-') || t[0] == '-'
    ensures !IsToken((p + t)[j..])
  {
    var u := (p + t)[j..];
    assert |u| >= 2;
    NumberChars(u);
    if t[0] == '-' {
      assert u[|p| - j] == t[0];
    } else {
      assert u[|p| - 1 - j] == p[|p| - 1];
    }
  }

  /** The leftmost token of `p + t` is `t` itself. */
  lemma TokenIsTail(p: string, t: string)
    requires IsNumber(t)
    requires p == [] || !(IsDigit(p[|p| - 1]) || p[|p| - 1] == '.' || p[|p| - 1] == '-') || t[0] == '-'
    ensures FirstTokenFrom(p + t, 0) == Some(|p|)
  {
    NumberChars(t);
    forall j {:trigger IsToken((p + t)[j..])} | 0 <= j < |p| ensures !IsToken((p + t)[j..]) {
      NoTokenInPrefix(p, t, j);
    }
    assert (p + t)[|p|..] == t;
    FirstTokenIs(p + t, 0, |p|);
  }

  /** An unsigned trailing decimal after a character that cannot extend it gains a `-`. */
  lemma ToggleNegSigns(p: string, d: string)
    requires IsDecimal(d)
    requires p == [] || !(IsDigit(p[|p| - 1]) || p[|p| - 1] == '.' || p[|p| - 1] == '-')
    ensures ToggleNeg(p + d) == p + "-" + d
  {
    DecimalChars(d);
    TokenIsTail(p, d);
    var s := p + d;
    assert s[..|p|] == p && s[|p|..] == d;
  }

  /**
   * A minus in front of a trailing decimal is dropped, whatever stands before
   * it: after a digit it was a binary minus, so `"3-5"` becomes `"35"`.
   */
  lemma ToggleNegDropsMinus(p: string, d: string)
    requires IsDecimal(d)
    ensures ToggleNeg(p + "-" + d) == p + d
  {
    var t := "-" + d;
    var s := p + t;
    assert t[1..] == d && t[|t| - 1] == d[|d| - 1];
    assert IsDigit(d[|d| - 1]) by { DecimalChars(d); }
    assert FirstTokenFrom(s, 0) == Some(|p|) by { TokenIsTail(p, t); }
    assert s[..|p|] == p && s[|p|..] == t;
    assert p + "-" + d == s;
  }

  /** Toggling twice restores any text whose trailing number had no sign. */
  lemma ToggleNegTwice(s: string, i: nat)
    requires s != [] && FirstTokenFrom(s, 0) == Some(i) && s[i] != '-' && s[|s| - 1] != ')'
    ensures ToggleNeg(ToggleNeg(s)) == s
  {
    UnsignedMatch(s, i);
    assert s[..i] + s[i..] == s;
    ToggleNegDropsMinus(s[..i], s[i..]);
  }

  /** A matched number without a sign is a decimal, and the toggle puts a `-` in front of it. */
  lemma UnsignedMatch(s: string, i: nat)
    requires s != [] && FirstTokenFrom(s, 0) == Some(i) && s[i] != '-' && s[|s| - 1] != ')'
    ensures IsDecimal(s[i..]) && ToggleNeg(s) == s[..i] + "-" + s[i..]
  {
    var d := s[i..];
    assert d[0] == s[i] && d[|d| - 1] == s[|s| - 1];
    UnsignedToken(d);
  }

  /** A token that neither starts with `-` nor ends with `)` is a decimal. */
  lemma UnsignedToken(d: string)
    requires IsToken(d) && d[0] != '-' && d[|d| - 1] != ')'
    ensures IsDecimal(d)
  {
    assert d != ")";
  }

  /** A text ending in `)` gets a `-` appended. */
  lemma ToggleNegAfterParen(s: string)
    requires s != [] && s[|s| - 1] == ')'
    ensures ToggleNeg(s) == s + "-"
  {
    assert IsToken(s[|s| - 1..]) by { assert s[|s| - 1..] == ")"; }
    var i := FirstTokenFrom(s, 0).value;
    NumberChars(s[i..]);
  }

  /** A text no suffix of which is a number gets a `-` appended. */
  lemma ToggleNegNoNumber(s: string)
    requires forall j {:trigger IsNumber(s[j..])} :: 0 <= j <= |s| ==> !IsNumber(s[j..])
    ensures ToggleNeg(s) == s + "-"
  {
  }

  /**
   * Otherwise only the trailing number changes: the text before it is kept
   * and one `-` is inserted in front of the number or removed from it.
   */
  lemma ToggleNegEdits(s: string)
    ensures var r := ToggleNeg(s);
      r == s + "-" ||
      exists i :: 0 <= i < |s| && IsNumber(s[i..]) && r == s[..i] +
        (if s[i] == '-' then s[i + 1..] else "-" + s[i..])
  {
    var r := ToggleNeg(s);
    if s != [] && FirstTokenFrom(s, 0).Some? {
      var i := FirstTokenFrom(s, 0).value;
      if s[i..] != ")" && s[|s| - 1] != ')' {
        assert s[i..][0] == s[i];
        assert s[i..][1..] == s[i + 1..];
        assert r == s[..i] + (if s[i] == '-' then s[i + 1..] else "-" + s[i..]);
      }
    }
  }

  lemma {:induction false} ToggleNegExamples()
    ensures ToggleNeg("") == "-"
    ensures ToggleNeg("3+5") == "3+-5" && ToggleNeg("3+-5") == "3+5"
    ensures ToggleNeg("3-5") == "35"
  {
    assert IsDecimal("5");
    ToggleNegSigns("3+", "5");
    assert "3+" + "5" == "3+5";
    assert "3+" + "-" + "5" == "3+-5";
    ToggleNegDropsMinus("3+", "5");
    ToggleNegDropsMinus("3", "5");
    assert "3" + "-" + "5" == "3-5";
    assert "3" + "5" == "35";
  }

  /** A point with no digit before it is not part of the number: `".5"` becomes `".-5"` and back. */
  lemma {:induction false} ToggleNegPointExample()
    ensures ToggleNeg(".5") == ".-5" && ToggleNeg(".-5") == ".5"
  {
    var s := ".5";
    assert s[1..] == "5" && IsDecimal("5");
    assert !IsToken(s[0..]) by { assert s[0..] == s && s[0] == '.'; }
    FirstTokenIs(s, 0, 1);
    ToggleNegDropsMinus(".", "5");
    assert "." + "-" + "5" == ".-5";
    assert "." + "5" == s;
  }
}
