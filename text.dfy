/**
 * Character classes and string helpers shared by the calculator's text passes.
 *
 * JavaScript's `\s` and `String.prototype.trim` also take in non-ASCII
 * whitespace; this model restricts them to the ASCII whitespace characters,
 * stated once here. `\w` is ASCII in JavaScript as well.
 */
module Text {

  /** `\d`, `[0-9]`. */
  predicate IsDigit(c: char) { '0' <= c <= '9' }

  /** `[A-Za-z]`. */
  predicate IsAsciiLetter(c: char) { 'A' <= c <= 'Z' || 'a' <= c <= 'z' }

  /** `\w`: the characters on either side of which `\b` looks. */
  predicate IsWordChar(c: char) { IsDigit(c) || IsAsciiLetter(c) || c == '_' }

  /** `\s` and what `trim` removes: space, tab, line feed, vertical tab, form feed, carriage return. */
  predicate IsSpace(c: char) {
    c == ' ' || c == '\t' || c == '\n' || c == '\U{000B}' || c == '\U{000C}' || c == '\r'
  }

  predicate AllSpace(s: string) { forall i :: 0 <= i < |s| ==> IsSpace(s[i]) }

  predicate AllDigits(s: string) { forall i :: 0 <= i < |s| ==> IsDigit(s[i]) }

  /** Length of the longest all-digit prefix of `s`: what a greedy `\d*` consumes. */
  function DigitRun(s: string): (n: nat)
    ensures n <= |s|
    ensures AllDigits(s[..n])
    ensures n < |s| ==> !IsDigit(s[n])
  {
    if s != [] && IsDigit(s[0]) then 1 + DigitRun(s[1..]) else 0
  }

  /** Length of the longest all-space prefix of `s`: what a greedy `\s*` consumes. */
  function SpaceRun(s: string): (n: nat)
    ensures n <= |s|
    ensures AllSpace(s[..n])
    ensures n < |s| ==> !IsSpace(s[n])
  {
    if s != [] && IsSpace(s[0]) then 1 + SpaceRun(s[1..]) else 0
  }

  lemma {:induction false} DigitRunAppend(a: string, b: string)
    ensures DigitRun(a + b) == if DigitRun(a) < |a| then DigitRun(a) else |a| + DigitRun(b)
    decreases |a|
  {
    if a != [] {
      assert (a + b)[0] == a[0];
      assert (a + b)[1..] == a[1..] + b;
      DigitRunAppend(a[1..], b);
    } else {
      assert a + b == b;
    }
  }

  /** Cutting the text after its leading digits, or later, leaves the digit run as it was. */
  lemma {:induction false} DigitRunPrefix(s: string, k: nat)
    requires DigitRun(s) <= k <= |s|
    ensures DigitRun(s[..k]) == DigitRun(s)
    decreases k
  {
    if 0 < k && IsDigit(s[0]) {
      assert s[..k][0] == s[0];
      assert s[..k][1..] == s[1..][..k - 1];
      DigitRunPrefix(s[1..], k - 1);
    } else if 0 < k {
      assert s[..k][0] == s[0];
    }
  }

  lemma {:induction false} SpaceRunAppend(a: string, b: string)
    requires AllSpace(a)
    requires b != [] && !IsSpace(b[0])
    ensures SpaceRun(a + b) == |a|
    decreases |a|
  {
    if a != [] {
      assert (a + b)[0] == a[0];
      assert (a + b)[1..] == a[1..] + b;
      SpaceRunAppend(a[1..], b);
    } else {
      assert a + b == b;
    }
  }

  /**
   * The text `\d+(\.\d+)?` matches in full: digits, optionally followed by
   * a point and more digits.
   */
  predicate IsDecimal(t: string) {
    var d := DigitRun(t);
    0 < d && (d == |t| || (d + 1 < |t| && t[d] == '.' && DigitRun(t[d + 1..]) == |t| - d - 1))
  }

  /** A decimal neither starts nor continues with a minus sign. */
  lemma DecimalHasNoMinus(t: string)
    requires IsDecimal(t)
    ensures forall i :: 0 <= i < |t| ==> t[i] != '-'
  {
    var d := DigitRun(t);
    if d < |t| {
      var f := t[d + 1..];
      assert AllDigits(f[..|f|]);
      assert f[..|f|] == f;
      forall i | 0 <= i < |t| ensures t[i] != '-' {
        if i < d { assert t[..d][i] == t[i]; }
        else if i > d { assert t[i] == f[i - d - 1]; }
      }
    } else {
      forall i | 0 <= i < |t| ensures t[i] != '-' { assert t[..d][i] == t[i]; }
    }
  }

  // Facts about concatenation, proved apart from the passes so that their
  // proofs do not have to unfold the passes' definitions.

  lemma ConsAppend(p: string, x: string)
    requires p != []
    ensures p + x == [p[0]] + (p[1..] + x)
  {
  }

  lemma DropAppend(a: string, b: string)
    ensures (a + b)[|a|..] == b
  {
  }

  lemma DropAppendAt(a: string, b: string, k: nat)
    requires k <= |b|
    ensures (a + b)[|a| + k..] == b[k..]
  {
  }

  lemma Assoc4(a: string, b: string, c: string, d: string)
    ensures a + b + c + d == a + (b + (c + d))
  {
  }

  lemma Assoc5(a: string, b: string, c: string, d: string, e: string)
    ensures a + b + c + d + e == a + (b + (c + (d + e)))
  {
  }

  lemma Assoc6(a: string, b: string, c: string, d: string, e: string, f: string)
    ensures a + b + c + d + e + f == a + (b + (c + (d + (e + f))))
  {
  }

  predicate NoComma(s: string) { forall i :: 0 <= i < |s| ==> s[i] != ',' }

  lemma NoCommaAppend(a: string, b: string)
    ensures NoComma(a + b) <==> NoComma(a) && NoComma(b)
  {
    if NoComma(a + b) {
      forall i | 0 <= i < |a| ensures a[i] != ',' { assert (a + b)[i] == a[i]; }
      forall i | 0 <= i < |b| ensures b[i] != ',' { assert (a + b)[|a| + i] == b[i]; }
    }
  }

  lemma {:induction false} StartsWithAt(s: string, w: string, i: int)
    ensures StartsWith(s, w) && 0 <= i < |w| ==> s[i] == w[i]
    decreases |w|
  {
    if StartsWith(s, w) && 0 < i < |w| {
      StartsWithAt(s[1..], w[1..], i - 1);
    }
  }

  /** Strip leading whitespace (the front half of `trim`). */
  function TrimStart(s: string): (r: string)
    ensures |r| <= |s| && r == s[|s| - |r|..]
    ensures forall j :: 0 <= j < |s| - |r| ==> IsSpace(s[j])
    ensures r != [] ==> !IsSpace(r[0])
  {
    if s != [] && IsSpace(s[0]) then TrimStart(s[1..]) else s
  }

  /** Strip trailing whitespace (the back half of `trim`). */
  function TrimEnd(s: string): (r: string)
    ensures |r| <= |s| && r == s[..|r|]
    ensures forall j :: |r| <= j < |s| ==> IsSpace(s[j])
    ensures r != [] ==> !IsSpace(r[|r| - 1])
  {
    if s != [] && IsSpace(s[|s| - 1]) then TrimEnd(s[..|s| - 1]) else s
  }

  /** `String.prototype.trim`. */
  function Trim(s: string): string {
    TrimEnd(TrimStart(s))
  }

  /** The last character `trim` keeps is the last non-whitespace one, and only whitespace follows it. */
  lemma TrimLastFrom(s: string)
    requires Trim(s) != []
    ensures var i := |s| - |TrimStart(s)| + |Trim(s)| - 1;
      0 <= i < |s| && s[i] == Trim(s)[|Trim(s)| - 1] && forall j :: i < j < |s| ==> IsSpace(s[j])
  {
    var t := TrimStart(s);
    var u := TrimEnd(t);
    var off := |s| - |t|;
    assert s[off + |u| - 1] == t[|u| - 1];
    SpacesAfterTrimEnd(s, t, off, |u|);
  }

  lemma SpacesAfterTrimEnd(s: string, t: string, off: nat, n: nat)
    requires off <= |s| && t == s[off..] && n <= |t|
    requires forall j :: n <= j < |t| ==> IsSpace(t[j])
    ensures forall j :: off + n <= j < |s| ==> IsSpace(s[j])
  {
    forall j | off + n <= j < |s| ensures IsSpace(s[j]) {
      assert s[j] == t[j - off];
    }
  }

  /** A non-whitespace character followed only by whitespace is the last one `trim` keeps. */
  lemma TrimLastIs(s: string, i: int)
    requires 0 <= i < |s| && !IsSpace(s[i])
    requires forall j :: i < j < |s| ==> IsSpace(s[j])
    ensures Trim(s) != [] && Trim(s)[|Trim(s)| - 1] == s[i]
  {
    var t := TrimStart(s);
    var off := |s| - |t|;
    TrimStartKeeps(s, i);
    var k := i - off;
    assert t[k] == s[i];
    assert |TrimEnd(t)| == k + 1 && TrimEnd(t)[k] == t[k] by {
      SpacesInTail(s, t, off, i);
      TrimEndKeeps(t, k);
    }
  }

  lemma SpacesInTail(s: string, t: string, off: nat, i: nat)
    requires off <= i < |s| && t == s[off..]
    requires forall j :: i < j < |s| ==> IsSpace(s[j])
    ensures forall m :: i - off < m < |t| ==> IsSpace(t[m])
  {
    forall m | i - off < m < |t| ensures IsSpace(t[m]) {
      assert t[m] == s[off + m];
    }
  }

  /** Trimming the start keeps every character from the first non-whitespace one on. */
  lemma TrimStartKeeps(s: string, i: int)
    requires 0 <= i < |s| && !IsSpace(s[i])
    ensures |s| - |TrimStart(s)| <= i
    ensures TrimStart(s)[i - (|s| - |TrimStart(s)|)] == s[i]
  {
  }

  /** Trimming the end stops at a non-whitespace character followed only by whitespace. */
  lemma TrimEndKeeps(t: string, k: int)
    requires 0 <= k < |t| && !IsSpace(t[k])
    requires forall m :: k < m < |t| ==> IsSpace(t[m])
    ensures |TrimEnd(t)| == k + 1 && TrimEnd(t)[k] == t[k]
  {
    var u := TrimEnd(t);
    assert k < |u|;
    assert !IsSpace(t[|u| - 1]);
  }

  function LowerChar(c: char): (d: char)
    ensures d != 'F'
    ensures IsAsciiLetter(c) ==> 'a' <= d <= 'z'
    ensures !IsAsciiLetter(c) ==> d == c
  {
    if 'A' <= c <= 'Z' then (c as int + 32) as char else c
  }

  /**
   * `String.prototype.toLowerCase` on ASCII letters; every other character is
   * kept. The calculator lowers only text that has passed its character
   * whitelist, which admits no other letters.
   */
  function Lower(s: string): (r: string)
    ensures |r| == |s|
    ensures forall i :: 0 <= i < |s| ==> r[i] == LowerChar(s[i])
  {
    if s == [] then [] else [LowerChar(s[0])] + Lower(s[1..])
  }

  predicate StartsWith(s: string, w: string)
    ensures StartsWith(s, w) ==> |w| <= |s|
  {
    w == [] || (s != [] && s[0] == w[0] && StartsWith(s[1..], w[1..]))
  }

  lemma {:induction false} StartsWithIff(s: string, w: string)
    ensures StartsWith(s, w) <==> |w| <= |s| && s[..|w|] == w
    decreases |w|
  {
    if w != [] && s != [] {
      StartsWithIff(s[1..], w[1..]);
      if |w| <= |s| {
        assert s[..|w|] == [s[0]] + s[1..][..|w| - 1];
        assert w == [w[0]] + w[1..];
      }
    }
  }

  lemma {:induction false} StartsWithAppend(a: string, b: string)
    ensures StartsWith(a + b, a)
    decreases |a|
  {
    if a != [] {
      assert (a + b)[1..] == a[1..] + b;
      StartsWithAppend(a[1..], b);
    }
  }

  /** `String.prototype.includes`: `w` occurs in `s` at some position. */
  predicate Contains(s: string, w: string)
    decreases |s|
  {
    StartsWith(s, w) || (s != [] && Contains(s[1..], w))
  }

  /** A word longer than `s` does not occur in `s`. */
  lemma {:induction false} ContainsNeedsRoom(s: string, w: string)
    requires |s| < |w|
    ensures !Contains(s, w)
    decreases |s|
  {
    if s != [] {
      ContainsNeedsRoom(s[1..], w);
    }
  }

  /** A word whose first letter never occurs in `s` does not occur in `s`. */
  lemma {:induction false} ContainsNeedsHead(s: string, w: string)
    requires w != [] && forall i :: 0 <= i < |s| ==> s[i] != w[0]
    ensures !Contains(s, w)
    decreases |s|
  {
    if s != [] {
      ContainsNeedsHead(s[1..], w);
    }
  }

  /** `.replace(/,/g, '')`: every comma removed, everything else kept in order. */
  function StripCommas(s: string): (r: string)
    ensures NoComma(r)
    ensures forall c :: c != ',' ==> multiset(r)[c] == multiset(s)[c]
  {
    if s == [] then []
    else
      assert s == [s[0]] + s[1..];
      if s[0] == ',' then StripCommas(s[1..])
    else [s[0]] + StripCommas(s[1..])
  }

  /** Stripping distributes over concatenation, so it removes commas and nothing else, in place. */
  lemma {:induction false} StripCommasAppend(a: string, b: string)
    ensures StripCommas(a + b) == StripCommas(a) + StripCommas(b)
    decreases |a|
  {
    if a == [] {
      assert a + b == b;
    } else {
      assert (a + b)[0] == a[0];
      assert (a + b)[1..] == a[1..] + b;
      StripCommasAppend(a[1..], b);
    }
  }

  lemma {:induction false} StripCommasNoComma(s: string)
    requires NoComma(s)
    ensures StripCommas(s) == s
    decreases |s|
  {
    if s != [] {
      StripCommasNoComma(s[1..]);
    }
  }
}
