/**
 * The e-mail pattern `^[^\s@]+@[^\s@]+\.[^\s@]+$` shared by both rule tables
 * of script.js. `MatchesEmailRegex` reads the regular expression literally
 * (three runs of non-space, non-`@` characters joined by `@` and a literal
 * `.`, anchored at both ends); `IsValidEmail` is the same check spelled out
 * as conditions on the string, and its contract states that they agree.
 */
module EmailPattern {
  import opened Text

  /** A character the class `[^\s@]` accepts. */
  predicate IsAtomChar(c: char) {
    !IsSpace(c) && c != '@'
  }

  /** A string `[^\s@]+` matches in full. */
  predicate IsAtom(t: string) {
    |t| > 0 && forall k :: 0 <= k < |t| ==> IsAtomChar(t[k])
  }

  /** The regular expression, read by the positions of the `@` and of the
      `.` that the pattern's middle `\.` consumes. A match has at least five
      characters and holds both an `@` and a `.`. */
  ghost predicate MatchesEmailRegex(s: string)
    ensures MatchesEmailRegex(s) ==> 5 <= |s| && '@' in s && '.' in s
  {
    exists i, k :: 0 <= i < k < |s| && s[i] == '@' && s[k] == '.'
      && IsAtom(s[..i]) && IsAtom(s[i + 1..k]) && IsAtom(s[k + 1..])
  }

  /** Index of the first `c` in `s`, or `|s|` when there is none. */
  function IndexOf(s: string, c: char): (r: nat)
    ensures r <= |s|
    ensures r < |s| ==> s[r] == c
    ensures forall j :: 0 <= j < r ==> s[j] != c
  {
    if s == [] then 0
    else if s[0] == c then 0
    else 1 + IndexOf(s[1..], c)
  }

  /** The pattern as conditions, given the index `at` of the first `@`: no
      white space anywhere, that `@` is the only one and has something
      before it, and a `.` in the domain has something on both sides. */
  predicate EmailConditions(s: string, at: nat) {
    (forall k :: 0 <= k < |s| ==> !IsSpace(s[k]))
    && 0 < at < |s|
    && (forall j :: at < j < |s| ==> s[j] != '@')
    && exists k :: at + 1 < k < |s| - 1 && s[k] == '.'
  }

  /** `pattern.test(s)`, computed from the conditions; it accepts exactly
      the strings the regular expression matches. */
  predicate IsValidEmail(s: string)
    ensures IsValidEmail(s) <==> MatchesEmailRegex(s)
  {
    var ok := EmailConditions(s, IndexOf(s, '@'));
    assert ok <==> MatchesEmailRegex(s) by {
      if ok {
        EmailShapeToRegex(s);
      }
      if MatchesEmailRegex(s) {
        RegexToEmailShape(s);
      }
    }
    ok
  }

  /** A non-empty run of accepted characters is a match of `[^\s@]+`. */
  lemma AtomSlice(s: string, lo: nat, hi: nat)
    requires lo < hi <= |s|
    requires forall j :: lo <= j < hi ==> IsAtomChar(s[j])
    ensures IsAtom(s[lo..hi])
  {
    forall j | 0 <= j < hi - lo ensures IsAtomChar(s[lo..hi][j]) {
      assert s[lo..hi][j] == s[lo + j];
    }
  }

  /** Every character of a run matched by `[^\s@]+` is accepted. */
  lemma AtomChars(s: string, lo: nat, hi: nat)
    requires lo <= hi <= |s| && IsAtom(s[lo..hi])
    ensures forall j :: lo <= j < hi ==> IsAtomChar(s[j])
  {
    forall j | lo <= j < hi ensures IsAtomChar(s[j]) {
      assert s[lo..hi][j - lo] == s[j];
    }
  }

  lemma EmailShapeToRegex(s: string)
    requires EmailConditions(s, IndexOf(s, '@'))
    ensures MatchesEmailRegex(s)
  {
    var at := IndexOf(s, '@');
    var k :| at + 1 < k < |s| - 1 && s[k] == '.';
    AtomSlice(s, 0, at);
    assert s[..at] == s[0..at];
    AtomSlice(s, at + 1, k);
    AtomSlice(s, k + 1, |s|);
    assert s[k + 1..] == s[k + 1..|s|];
  }

  /** The characters of a regular-expression match, by position: a match
      for `[^\s@]+` on either side of the `@` and of the `.`. */
  lemma RegexWitnessChars(s: string, i: nat, k: nat)
    requires i < k < |s| && IsAtom(s[..i]) && IsAtom(s[i + 1..k]) && IsAtom(s[k + 1..])
    ensures 0 < i && i + 1 < k < |s| - 1
    ensures forall j :: 0 <= j < |s| && j != i && j != k ==> IsAtomChar(s[j])
  {
    assert s[..i] == s[0..i];
    assert s[k + 1..] == s[k + 1..|s|];
    AtomChars(s, 0, i);
    AtomChars(s, i + 1, k);
    AtomChars(s, k + 1, |s|);
  }

  /** At the positions of a match, the conditions hold and the `@` is the
      first one. */
  lemma WitnessConditions(s: string, i: nat, k: nat)
    requires 0 < i && i + 1 < k < |s| - 1 && s[i] == '@' && s[k] == '.'
    requires forall j :: 0 <= j < |s| && j != i && j != k ==> IsAtomChar(s[j])
    ensures IndexOf(s, '@') == i && EmailConditions(s, i)
  {
    assert forall j :: 0 <= j < |s| ==> !IsSpace(s[j]) by {
      forall j | 0 <= j < |s| ensures !IsSpace(s[j]) {
        if j != i && j != k {
          assert IsAtomChar(s[j]);
        }
      }
    }
    assert forall j :: i < j < |s| ==> s[j] != '@' by {
      forall j | i < j < |s| ensures s[j] != '@' {
        if j != k {
          assert IsAtomChar(s[j]);
        }
      }
    }
    assert IndexOf(s, '@') == i by {
      assert forall j :: 0 <= j < i ==> IsAtomChar(s[j]);
    }
  }

  lemma RegexToEmailShape(s: string)
    requires MatchesEmailRegex(s)
    ensures EmailConditions(s, IndexOf(s, '@'))
  {
    var i, k :| 0 <= i < k < |s| && s[i] == '@' && s[k] == '.'
      && IsAtom(s[..i]) && IsAtom(s[i + 1..k]) && IsAtom(s[k + 1..]);
    RegexWitnessChars(s, i, k);
    WitnessConditions(s, i, k);
  }

  /** Three sample inputs: a plain address matches, an address without a
      dot in its domain does not, and neither does one with a space in its
      local part. */
  lemma EmailExampleAccepted()
    ensures MatchesEmailRegex("a@b.co")
  {
    var s := "a@b.co";
    assert IndexOf(s, '@') == 1 by {
      assert s[0] != '@' && s[1] == '@';
    }
    assert s[3] == '.';
    assert IsValidEmail(s);
  }

  lemma EmailExampleNoDot()
    ensures !MatchesEmailRegex("a@b")
  {
    var s := "a@b";
    assert IndexOf(s, '@') == 1 by {
      assert s[0] != '@' && s[1] == '@';
    }
    assert !IsValidEmail(s);
  }

  lemma EmailExampleSpace()
    ensures !MatchesEmailRegex("a b@c.com")
  {
    var s := "a b@c.com";
    assert IsSpace(s[1]);
    assert !IsValidEmail(s);
  }
}
