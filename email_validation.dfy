/** The e-mail test both sign-in forms use: the regular expression
    `^[^\s@]+@[^\s@]+\.[^\s@]+$` and the four plain conditions it amounts to. */
module EmailValidation {
  import opened JsText

  /** The class `[^\s@]`. */
  predicate IsAddressChar(c: char) {
    !IsWhitespace(c) && c != '@'
  }

  /** The pattern matches `s` with the `@` at index `at` and the escaped `.` at index `dot`:
      three non-empty runs of `[^\s@]` around them, filling the whole string. */
  predicate EmailSplit(s: string, at: int, dot: int) {
    && 0 < at && at + 1 < dot && dot + 1 < |s|
    && s[at] == '@' && s[dot] == '.'
    && (forall i :: 0 <= i < |s| && i != at ==> IsAddressChar(s[i]))
  }

  /** The regular expression accepts `s`. */
  ghost predicate MatchesEmailPattern(s: string) {
    exists at, dot :: EmailSplit(s, at, dot)
  }

  function CountChar(s: string, c: char): (n: nat)
    ensures n == 0 <==> c !in s
  {
    if s == [] then 0 else (if s[0] == c then 1 else 0) + CountChar(s[1..], c)
  }

  /** Index of the first `c` in `s`, or `|s|`. */
  function IndexOf(s: string, c: char): (i: nat)
    ensures i <= |s|
    ensures i < |s| ==> s[i] == c
    ensures forall j :: 0 <= j < i ==> s[j] != c
  {
    if s == [] then 0 else if s[0] == c then 0 else 1 + IndexOf(s[1..], c)
  }

  /** `s` contains a `.` that is neither its first nor its last character. */
  predicate HasInnerDot(s: string) {
    exists k :: 0 < k < |s| - 1 && s[k] == '.'
  }

  function NoWhitespace(s: string): bool {
    forall i :: 0 <= i < |s| ==> !IsWhitespace(s[i])
  }

  /** `isValidEmail`: no whitespace, exactly one `@`, a non-empty part before it, and a
      domain holding a `.` that is neither its first nor its last character. */
  function IsValidEmail(s: string): bool {
    var at := IndexOf(s, '@');
    && NoWhitespace(s)
    && CountChar(s, '@') == 1
    && at > 0
    && HasInnerDot(s[at + 1..])
  }

  lemma {:induction false} CountCharSplit(s: string, i: nat, c: char)
    requires i <= |s|
    ensures CountChar(s, c) == CountChar(s[..i], c) + CountChar(s[i..], c)
  {
    if i == 0 {
      assert s[..0] == [] && s[0..] == s;
    } else {
      var t, head := s[1..], s[..i];
      CountCharSplit(t, i - 1, c);
      assert t[..i - 1] == head[1..] && t[i - 1..] == s[i..];
      assert head[0] == s[0];
    }
  }

  /** One `@`, at `at`, leaves none elsewhere. */
  lemma OnlyAt(s: string, at: nat)
    requires at < |s| && s[at] == '@' && CountChar(s, '@') == 1
    ensures forall i :: 0 <= i < |s| && i != at ==> s[i] != '@'
  {
    CountCharSplit(s, at, '@');
    CountCharSplit(s[at..], 1, '@');
    assert s[at..][..1] == [s[at]];
    assert s[at..][1..] == s[at + 1..];
    forall i | 0 <= i < |s| && i != at
      ensures s[i] != '@'
    {
      if i < at {
        assert s[..at][i] == s[i];
      } else {
        assert s[at + 1..][i - at - 1] == s[i];
      }
    }
  }

  /** A string with no `@` outside `at` holds exactly one. */
  lemma SingleAt(s: string, at: nat)
    requires at < |s| && s[at] == '@'
    requires forall i :: 0 <= i < |s| && i != at ==> s[i] != '@'
    ensures CountChar(s, '@') == 1
  {
    CountCharSplit(s, at, '@');
    CountCharSplit(s[at..], 1, '@');
    assert s[at..][..1] == [s[at]];
    assert s[at..][1..] == s[at + 1..];
    assert '@' !in s[..at];
    assert '@' !in s[at + 1..];
  }

  /** The plain conditions hold exactly when the regular expression matches. */
  lemma IsValidEmailIffPattern(s: string)
    ensures IsValidEmail(s) <==> MatchesEmailPattern(s)
  {
    if IsValidEmail(s) {
      var at := IndexOf(s, '@');
      var domain := s[at + 1..];
      var k :| 0 < k < |domain| - 1 && domain[k] == '.';
      OnlyAt(s, at);
      assert domain[k] == s[at + 1 + k];
      assert EmailSplit(s, at, at + 1 + k);
    }
    if MatchesEmailPattern(s) {
      var at, dot :| EmailSplit(s, at, dot);
      assert IndexOf(s, '@') == at;
      SingleAt(s, at);
      var domain := s[at + 1..];
      assert domain[dot - at - 1] == '.';
      assert HasInnerDot(domain);
    }
  }
}
