/** The completeness gate: whether an automatic evaluation is attempted. */
module Gate {
  import opened Text

  /** The characters `[0-9)]` an expression must end with to be evaluated. */
  predicate EndsToken(c: char) { IsDigit(c) || c == ')' }

  /** `isCompleteExpression`: the trimmed text ends in a digit or `)`. */
  predicate IsComplete(s: string) {
    var t := Trim(s);
    t != [] && EndsToken(t[|t| - 1])
  }

  /** Position `i` holds a digit or `)` and only whitespace follows it. */
  ghost predicate EndsTokenAt(s: string, i: int) {
    0 <= i < |s| && EndsToken(s[i]) && forall j :: i < j < |s| ==> IsSpace(s[j])
  }

  /** Complete exactly when the last non-whitespace character is a digit or `)`. */
  lemma CompleteIff(s: string)
    ensures IsComplete(s) <==> exists i :: EndsTokenAt(s, i)
  {
    if IsComplete(s) {
      CompleteHasToken(s);
    }
    if i :| EndsTokenAt(s, i) {
      TokenMakesComplete(s, i);
    }
  }

  lemma CompleteHasToken(s: string)
    ensures IsComplete(s) ==> EndsTokenAt(s, |s| - |TrimStart(s)| + |Trim(s)| - 1)
  {
    if IsComplete(s) {
      TrimLastFrom(s);
    }
  }

  lemma TokenMakesComplete(s: string, i: int)
    requires EndsTokenAt(s, i)
    ensures IsComplete(s)
  {
    TrimLastIs(s, i);
  }

  /** The empty text, and text ending in an operator, a point or `(`, is incomplete. */
  lemma IncompleteEndings(s: string)
    requires s == [] || s[|s| - 1] in "+-*/.(\U{00D7}\U{00F7}"
    ensures !IsComplete(s)
  {
    if s != [] {
      var c := s[|s| - 1];
      assert c in "+-*/.(\U{00D7}\U{00F7}";
      assert !IsSpace(c) && !EndsToken(c);
      TrimLastIs(s, |s| - 1);
    }
  }
}
