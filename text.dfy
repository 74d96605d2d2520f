/**
 * String primitives the script relies on: the ECMAScript notion of white
 * space (shared by `String.prototype.trim` and the regular-expression class
 * `\s`), `trim` itself, and the `length` of a string, which JavaScript counts
 * in UTF-16 code units.
 */
module Text {

  /** ECMAScript WhiteSpace and LineTerminator code points: exactly the set
      that `trim` strips and that `\s` matches. None of them is a visible
      ASCII character, and each is a single UTF-16 code unit. */
  predicate IsSpace(c: char)
    ensures IsSpace(c) ==> !('!' <= c <= '~') && c <= '\U{FFFF}'
  {
    c == '\t' || c == '\n' || c == '\U{000B}' || c == '\U{000C}' || c == '\r'
    || c == ' ' || c == '\U{00A0}' || c == '\U{1680}'
    || ('\U{2000}' <= c <= '\U{200A}')
    || c == '\U{2028}' || c == '\U{2029}' || c == '\U{202F}' || c == '\U{205F}'
    || c == '\U{3000}' || c == '\U{FEFF}'
  }

  /** Every character of `s` is white space (the empty string included). */
  predicate IsBlank(s: string) {
    forall k :: 0 <= k < |s| ==> IsSpace(s[k])
  }

  /** Every character of `s` lies in the Basic Multilingual Plane, so it is
      one UTF-16 code unit. */
  predicate IsBmp(s: string) {
    forall k :: 0 <= k < |s| ==> s[k] as int <= 0xFFFF
  }

  /** JavaScript's `s.length`: characters outside the Basic Multilingual
      Plane take two UTF-16 code units (a surrogate pair). */
  function Utf16Length(s: string): (n: nat)
    ensures |s| <= n <= 2 * |s|
    ensures IsBmp(s) ==> n == |s|
    ensures !IsBmp(s) ==> n > |s|
  {
    if s == [] then 0
    else (if s[0] as int > 0xFFFF then 2 else 1) + Utf16Length(s[1..])
  }

  /** Index of the first character at or after `i` that is not white
      space, or `|s|`. */
  function TrimStartIndex(s: string, i: nat): (r: nat)
    requires i <= |s|
    ensures i <= r <= |s|
    ensures forall k :: i <= k < r ==> IsSpace(s[k])
    ensures r < |s| ==> !IsSpace(s[r])
    decreases |s| - i
  {
    if i < |s| && IsSpace(s[i]) then TrimStartIndex(s, i + 1) else i
  }

  /** End of `s[lo..j]` once the white space at its back is dropped. */
  function TrimEndIndex(s: string, lo: nat, j: nat): (r: nat)
    requires lo <= j <= |s|
    ensures lo <= r <= j
    ensures forall k :: r <= k < j ==> IsSpace(s[k])
    ensures lo < r ==> !IsSpace(s[r - 1])
  {
    if lo < j && IsSpace(s[j - 1]) then TrimEndIndex(s, lo, j - 1) else j
  }

  /** `String.prototype.trim`: the result neither starts nor ends with
      white space. */
  function Trim(s: string): (r: string)
    ensures r != [] ==> !IsSpace(r[0]) && !IsSpace(r[|r| - 1])
  {
    var a := TrimStartIndex(s, 0);
    s[a..TrimEndIndex(s, a, |s|)]
  }

  /** `trim` keeps the slice of `s` that starts `lead` characters in and
      cuts off only white space on either side. */
  lemma TrimIsSlice(s: string)
    ensures var lead, r := TrimStartIndex(s, 0), Trim(s);
      lead + |r| <= |s| && r == s[lead..lead + |r|]
      && (forall k :: 0 <= k < lead ==> IsSpace(s[k]))
      && (forall k :: lead + |r| <= k < |s| ==> IsSpace(s[k]))
  {
  }

  /** A string trims to the empty string exactly when it is all white space. */
  lemma TrimEmptyIffBlank(s: string)
    ensures Trim(s) == [] <==> IsBlank(s)
  {
    var a := TrimStartIndex(s, 0);
    var b := TrimEndIndex(s, a, |s|);
    if a < b {
      assert !IsSpace(s[a]);
    }
  }

  /** A string without white space at either end is its own trim. */
  lemma TrimOfTrimmed(s: string)
    requires s != [] ==> !IsSpace(s[0]) && !IsSpace(s[|s| - 1])
    ensures Trim(s) == s
  {
    assert TrimStartIndex(s, 0) == 0;
    assert s[0..|s|] == s;
  }

  /** Trimming twice is trimming once. */
  lemma TrimIdempotent(s: string)
    ensures Trim(Trim(s)) == Trim(s)
  {
    TrimOfTrimmed(Trim(s));
  }
}
