/** The three regular expressions of the registration form's rule table,
    written as character predicates. Each pattern is anchored at both ends
    (`^…$`) and carries no flags, so a match is a statement about the whole
    string. */
module Patterns {
  import opened Text

  /** The class `[A-Za-z\s]`. */
  predicate IsNameChar(c: char) {
    IsAsciiLetter(c) || IsWhitespace(c)
  }

  /** `^[A-Za-z\s]{2,50}$`, used for the first and last name. */
  predicate NameMatches(s: string) {
    2 <= |s| <= 50 && forall k :: 0 <= k < |s| ==> IsNameChar(s[k])
  }

  /** The class `[0-9+\-\s()]`. */
  predicate IsPhoneChar(c: char) {
    IsDigit(c) || c == '+' || c == '-' || c == '(' || c == ')' || IsWhitespace(c)
  }

  /** `^[0-9+\-\s()]{10,15}$`, used for the phone number. */
  predicate PhoneMatches(s: string) {
    10 <= |s| <= 15 && forall k :: 0 <= k < |s| ==> IsPhoneChar(s[k])
  }

  /** The class `[^@\s]`. */
  predicate IsAtomChar(c: char) {
    c != '@' && !IsWhitespace(c)
  }

  /** `[^@\s]+`: a non-empty run of characters that are neither `@` nor whitespace. */
  predicate IsAtom(s: string) {
    |s| > 0 && forall k :: 0 <= k < |s| ==> IsAtomChar(s[k])
  }

  /** `s` reads as `[^@\s]+ @ [^@\s]+ \. [^@\s]+` with the `@` at index `i`
      and the chosen `.` at index `j`. */
  predicate EmailSplit(s: string, i: int, j: int) {
    && 0 <= i < j < |s|
    && s[i] == '@' && s[j] == '.'
    && IsAtom(s[..i]) && IsAtom(s[i + 1..j]) && IsAtom(s[j + 1..])
  }

  /** Membership in the language of `^[^@\s]+@[^@\s]+\.[^@\s]+$`: some choice
      of the `@` and of the `.` splits the string into three atoms. This is
      the reference reading of the regex; `EmailMatches` is the form the
      validator evaluates. */
  ghost predicate EmailRegex(s: string) {
    exists i, j :: EmailSplit(s, i, j)
  }

  /** No `@` anywhere in `s` except at index `i`. */
  predicate OnlyAtAt(s: string, i: int) {
    forall k :: 0 <= k < |s| && k != i ==> s[k] != '@'
  }

  /** The domain part `d` has a `.` that is neither its first nor its last character. */
  predicate HasInnerDot(d: string) {
    exists k :: 0 < k < |d| - 1 && d[k] == '.'
  }

  /** The email test as the validator evaluates it: no whitespace, exactly
      one `@`, something before it, and after it a domain with an inner dot. */
  predicate EmailMatches(s: string) {
    && NoWhitespace(s)
    && exists i :: 0 < i < |s| && s[i] == '@' && OnlyAtAt(s, i) && HasInnerDot(s[i + 1..])
  }

  /** The evaluated email test accepts exactly the strings of the regex's language. */
  lemma EmailMatchesIffRegex(s: string)
    ensures EmailMatches(s) <==> EmailRegex(s)
  {
    if EmailMatches(s) {
      var i :| 0 < i < |s| && s[i] == '@' && OnlyAtAt(s, i) && HasInnerDot(s[i + 1..]);
      var d := s[i + 1..];
      var k :| 0 < k < |d| - 1 && d[k] == '.';
      var j := i + 1 + k;
      assert s[j] == d[k];
      assert IsAtom(s[..i]) by {
        forall m | 0 <= m < i ensures IsAtomChar(s[..i][m]) {
          assert s[..i][m] == s[m];
        }
      }
      var mid, top := s[i + 1..j], s[j + 1..];
      assert IsAtom(mid) by {
        forall m | 0 <= m < |mid| ensures IsAtomChar(mid[m]) {
          assert mid[m] == s[i + 1 + m];
        }
      }
      assert IsAtom(top) by {
        forall m | 0 <= m < |top| ensures IsAtomChar(top[m]) {
          assert top[m] == s[j + 1 + m];
        }
      }
      assert EmailSplit(s, i, j);
    }
    if EmailRegex(s) {
      var i, j :| EmailSplit(s, i, j);
      assert s[..i][0] == s[0];
      forall m | 0 <= m < |s|
        ensures s[m] != '@' || m == i
        ensures !IsWhitespace(s[m])
      {
        if m < i {
          assert s[..i][m] == s[m];
        } else if i < m < j {
          assert s[i + 1..j][m - i - 1] == s[m];
        } else if j < m {
          assert s[j + 1..][m - j - 1] == s[m];
        }
      }
      assert s[i + 1..][j - i - 1] == s[j];
      assert HasInnerDot(s[i + 1..]);
    }
  }
}
