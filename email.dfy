/** The page's e-mail address check, `validateEmail`: the regular expression
    `^[^\s@]+@[^\s@]+\.[^\s@]+$` spelled out over the characters of the
    address. */
module EmailValidation {

  /** The characters JavaScript's `\s` class matches: the ECMAScript
      WhiteSpace and LineTerminator code points. */
  predicate IsWhitespace(c: char)
    ensures IsWhitespace(c) ==> c != '@' && c != '.'
  {
    c == '\t' || c == '\n' || c == '\U{000B}' || c == '\U{000C}' || c == '\r' ||
    c == ' ' || c == '\U{00A0}' || c == '\U{1680}' || ('\U{2000}' <= c <= '\U{200A}') ||
    c == '\U{2028}' || c == '\U{2029}' || c == '\U{202F}' || c == '\U{205F}' ||
    c == '\U{3000}' || c == '\U{FEFF}'
  }

  /** A character of the class `[^\s@]`. */
  predicate IsPlain(c: char)
  {
    !IsWhitespace(c) && c != '@'
  }

  /** `[^\s@]+`: a non-empty run of plain characters. */
  predicate IsPlainRun(s: string)
  {
    |s| > 0 && forall k :: 0 <= k < |s| ==> IsPlain(s[k])
  }

  /** Whether the regular expression matches the whole of `email`: the
      address splits at an `@` and a later `.` into three plain runs. */
  predicate ValidateEmail(email: string)
    ensures ValidateEmail(email) ==> |email| >= 5 && '@' in email && '.' in email
  {
    exists at, dot :: 0 < at < dot < |email| &&
      email[at] == '@' && email[dot] == '.' &&
      IsPlainRun(email[..at]) && IsPlainRun(email[at + 1..dot]) && IsPlainRun(email[dot + 1..])
  }

  predicate NoWhitespace(s: string)
  {
    forall k :: 0 <= k < |s| ==> !IsWhitespace(s[k])
  }

  /** `d` has a `.` that is neither its first nor its last character. */
  predicate HasInnerDot(d: string)
  {
    exists p :: 0 < p < |d| - 1 && d[p] == '.'
  }

  /** The address properties the pattern stands for, stated independently:
      no whitespace, exactly one `@`, something before it, and an inner `.`
      after it. */
  predicate WellFormedAddress(s: string)
  {
    NoWhitespace(s) && multiset(s)['@'] == 1 &&
    exists a :: 0 < a < |s| && s[a] == '@' && HasInnerDot(s[a + 1..])
  }

  /** A character occurs nowhere in `t` iff `t` has none of it. */
  lemma AbsentCount(t: string, c: char)
    ensures multiset(t)[c] == 0 <==> forall k :: 0 <= k < |t| ==> t[k] != c
  {
  }

  /** With an `@` at `a`, there is exactly one `@` iff there is none elsewhere. */
  lemma OneAtIff(s: string, a: int)
    requires 0 <= a < |s| && s[a] == '@'
    ensures multiset(s)['@'] == 1 <==> forall k :: 0 <= k < |s| && k != a ==> s[k] != '@'
  {
    var left, right := s[..a], s[a + 1..];
    assert s == left + [s[a]] + right;
    assert multiset(s)['@'] == multiset(left)['@'] + 1 + multiset(right)['@'];
    AbsentCount(left, '@');
    AbsentCount(right, '@');
    forall k | 0 <= k < |s| && k != a
      ensures s[k] == (if k < a then left[k] else right[k - a - 1])
    {
    }
  }

  /** Every address the pattern matches is well formed. */
  lemma MatchIsWellFormed(email: string)
    requires ValidateEmail(email)
    ensures WellFormedAddress(email)
  {
    var at, dot :| 0 < at < dot < |email| &&
      email[at] == '@' && email[dot] == '.' &&
      IsPlainRun(email[..at]) && IsPlainRun(email[at + 1..dot]) && IsPlainRun(email[dot + 1..]);
    forall k | 0 <= k < |email| && k != at
      ensures IsPlain(email[k]) || (k == dot && email[k] == '.')
    {
      if k < at {
        assert email[k] == email[..at][k];
      } else if at < k < dot {
        assert email[k] == email[at + 1..dot][k - at - 1];
      } else if k > dot {
        assert email[k] == email[dot + 1..][k - dot - 1];
      }
    }
    OneAtIff(email, at);
    var d := email[at + 1..];
    assert d[dot - at - 1] == '.';
    assert HasInnerDot(d);
  }

  /** Every well-formed address matches the pattern. */
  lemma WellFormedIsMatch(email: string)
    requires WellFormedAddress(email)
    ensures ValidateEmail(email)
  {
    var a :| 0 < a < |email| && email[a] == '@' && HasInnerDot(email[a + 1..]);
    var d := email[a + 1..];
    var p :| 0 < p < |d| - 1 && d[p] == '.';
    OneAtIff(email, a);
    var dot := a + 1 + p;
    assert email[dot] == '.';
    assert IsPlainRun(email[..a]);
    assert IsPlainRun(email[a + 1..dot]);
    assert IsPlainRun(email[dot + 1..]);
  }

  /** The pattern matches exactly the well-formed addresses. */
  lemma ValidateEmailIff(email: string)
    ensures ValidateEmail(email) <==> WellFormedAddress(email)
  {
    if ValidateEmail(email) {
      MatchIsWellFormed(email);
    }
    if WellFormedAddress(email) {
      WellFormedIsMatch(email);
    }
  }

  /** An ordinary address is accepted. */
  lemma AcceptsPlainAddress()
    ensures ValidateEmail("me@site.io")
  {
    var e := "me@site.io";
    assert e[2] == '@' && e[7] == '.';
    assert e[..2] == "me" && e[3..7] == "site" && e[8..] == "io";
    assert IsPlainRun(e[..2]) && IsPlainRun(e[3..7]) && IsPlainRun(e[8..]);
  }

  /** An address without a dot after the `@` is refused. */
  lemma RejectsMissingDot()
    ensures !ValidateEmail("me@site")
  {
  }

  /** An address with two `@` is refused. */
  lemma RejectsDoubleAt()
    ensures !ValidateEmail("me@@site.io")
  {
    ValidateEmailIff("me@@site.io");
  }

  /** An address with a space is refused. */
  lemma RejectsSpace()
    ensures !ValidateEmail("me @site.io")
  {
    ValidateEmailIff("me @site.io");
  }

  /** A dot right after the `@` does not count. */
  lemma RejectsLeadingDot()
    ensures !ValidateEmail("me@.io")
  {
    ValidateEmailIff("me@.io");
  }
}
