/**
 * The string tests the registration form relies on: JavaScript's notion of
 * white space (shared by `String.prototype.trim` and the regular-expression
 * class `\s`), trimming, and the unanchored test `/\S+@\S+\.\S+/.test(email)`.
 */
module Text {

  /** ECMAScript WhiteSpace or LineTerminator: what `trim` strips and `\s` matches. */
  predicate IsSpace(c: char) {
    || c == '\t' || c == '\n' || c == '\U{000B}' || c == '\U{000C}' || c == '\r' || c == ' '
    || c == '\U{00A0}' || c == '\U{1680}' || ('\U{2000}' <= c && c <= '\U{200A}')
    || c == '\U{2028}' || c == '\U{2029}' || c == '\U{202F}' || c == '\U{205F}'
    || c == '\U{3000}' || c == '\U{FEFF}'
  }

  /** Every character is white space (this includes the empty string). */
  predicate Blank(s: string) {
    forall i :: 0 <= i < |s| ==> IsSpace(s[i])
  }

  /** No character is white space: every character is matched by `\S`. */
  predicate NoSpace(s: string) {
    forall i :: 0 <= i < |s| ==> !IsSpace(s[i])
  }

  /** The number of white-space characters at the start of `s`. */
  function LeadingSpace(s: string): (k: nat)
    ensures k <= |s|
    ensures forall i :: 0 <= i < k ==> IsSpace(s[i])
    ensures k < |s| ==> !IsSpace(s[k])
  {
    if |s| > 0 && IsSpace(s[0]) then 1 + LeadingSpace(s[1..]) else 0
  }

  /** The number of white-space characters at the end of `s`. */
  function TrailingSpace(s: string): (k: nat)
    ensures k <= |s|
    ensures forall i :: |s| - k <= i < |s| ==> IsSpace(s[i])
    ensures k < |s| ==> !IsSpace(s[|s| - 1 - k])
  {
    if |s| > 0 && IsSpace(s[|s| - 1]) then 1 + TrailingSpace(s[..|s| - 1]) else 0
  }

  /**
   * `String.prototype.trim`: the result is empty exactly for blank input;
   * otherwise it neither starts nor ends with white space, and it is the
   * slice of `s` left once white space alone is cut from both ends.
   */
  function Trim(s: string): (r: string)
    ensures r == [] <==> Blank(s)
    ensures r != [] ==> !IsSpace(r[0]) && !IsSpace(r[|r| - 1])
    ensures LeadingSpace(s) + |r| <= |s|
    ensures r == s[LeadingSpace(s)..LeadingSpace(s) + |r|]
    ensures Blank(s[..LeadingSpace(s)]) && Blank(s[LeadingSpace(s) + |r|..])
  {
    var a := LeadingSpace(s);
    var t := s[a..];
    var b := TrailingSpace(t);
    var tail := s[a + |t| - b..];
    assert Blank(tail) by {
      forall i | 0 <= i < b ensures IsSpace(tail[i]) {
        assert tail[i] == t[|t| - b + i];
      }
    }
    assert |t| - b > 0 ==> !IsSpace(t[0]);
    t[..|t| - b]
  }

  /**
   * Membership of the whole of `w` in the language of `\S+@\S+\.\S+`:
   * a non-empty run before an '@', a non-empty run between it and a '.',
   * and a non-empty run after that '.', no run holding white space.
   */
  ghost predicate MatchesPattern(w: string) {
    exists a, d :: PatternSplit(w, a, d)
  }

  /** `w` splits as `\S+` ++ "@" ++ `\S+` ++ "." ++ `\S+` with the '@' at `a` and the '.' at `d`. */
  ghost predicate PatternSplit(w: string, a: int, d: int) {
    && 0 < a && a + 1 < d && d + 1 < |w|
    && w[a] == '@' && w[d] == '.'
    && NoSpace(w[..a]) && NoSpace(w[a + 1..d]) && NoSpace(w[d + 1..])
  }

  /** `RegExp.prototype.test` with an unanchored pattern: some substring matches. */
  ghost predicate RegexTest(s: string) {
    exists i, j :: 0 <= i <= j <= |s| && MatchesPattern(s[i..j])
  }

  /**
   * An '@' at `a` and a later '.' at `d` around which `\S+@\S+\.\S+` matches:
   * a non-space character just before `a`, only non-space characters
   * strictly between them (at least one), and a non-space character just
   * after `d`.
   */
  predicate EmailShapeAt(s: string, a: int, d: int) {
    && 0 < a && a + 1 < d && d + 1 < |s|
    && s[a] == '@' && s[d] == '.'
    && !IsSpace(s[a - 1]) && !IsSpace(s[d + 1])
    && (forall k | a < k < d :: !IsSpace(s[k]))
  }

  /**
   * The email test the form runs, stated on the positions of the '@' and
   * the '.'. A passing string has an '@' and a later '.', so at least five
   * characters.
   */
  function EmailShaped(s: string): (r: bool)
    ensures r ==> '@' in s && '.' in s && |s| >= 5
  {
    exists a, d | 0 <= a < |s| && 0 <= d < |s| :: EmailShapeAt(s, a, d)
  }

  /** The window from just before the '@' to just after the '.' matches the pattern. */
  lemma ShapeGivesMatch(s: string, a: int, d: int)
    requires EmailShapeAt(s, a, d)
    ensures MatchesPattern(s[a - 1..d + 2])
  {
    var w := s[a - 1..d + 2];
    var a', d' := 1, d - a + 1;
    assert w[a'] == '@' && w[d'] == '.';
    assert w[..a'] == [s[a - 1]];
    assert w[d' + 1..] == [s[d + 1]];
    var mid := w[a' + 1..d'];
    assert NoSpace(mid) by {
      forall k | 0 <= k < |mid| ensures !IsSpace(mid[k]) {
        assert mid[k] == s[a + 1 + k];
      }
    }
    assert PatternSplit(w, a', d');
  }

  /** A matching substring yields the positions the form's test looks for. */
  lemma MatchGivesShape(s: string, i: int, j: int)
    requires 0 <= i <= j <= |s| && MatchesPattern(s[i..j])
    ensures EmailShaped(s)
  {
    var w := s[i..j];
    var a', d' :| PatternSplit(w, a', d');
    var pre, mid, post := w[..a'], w[a' + 1..d'], w[d' + 1..];
    var a, d := i + a', i + d';
    assert s[a - 1] == pre[a' - 1];
    assert s[d + 1] == post[0];
    forall k | a < k < d ensures !IsSpace(s[k]) {
      assert s[k] == mid[k - a - 1];
    }
    assert EmailShapeAt(s, a, d);
  }

  /** The positional test agrees with the regular-expression semantics on every string. */
  lemma EmailShapedIffRegex(s: string)
    ensures EmailShaped(s) <==> RegexTest(s)
  {
    if EmailShaped(s) {
      var a, d :| 0 <= a < |s| && 0 <= d < |s| && EmailShapeAt(s, a, d);
      ShapeGivesMatch(s, a, d);
    }
    if RegexTest(s) {
      var i, j :| 0 <= i <= j <= |s| && MatchesPattern(s[i..j]);
      MatchGivesShape(s, i, j);
    }
  }
}
