/** The input validators of `ValidationHelper`: e-mail shape, password length,
    name length and whitespace trimming. */
module Validation {
  import opened Wrappers
  import opened Sequences

  // ---------------------------------------------------------------------------
  // Character sets
  // ---------------------------------------------------------------------------

  /** Foundation's `CharacterSet.whitespaces`: the space separators (general category Zs)
      and the horizontal tab. */
  predicate IsWhitespace(c: char) {
    c == '\t' || c == ' ' || c == '\U{00A0}' || c == '\U{1680}'
    || ('\U{2000}' <= c <= '\U{200A}') || c == '\U{202F}' || c == '\U{205F}' || c == '\U{3000}'
  }

  /** The line breaks that `CharacterSet.whitespacesAndNewlines` adds: U+000A to U+000D,
      U+0085 and the line and paragraph separators U+2028 and U+2029. */
  predicate IsNewline(c: char) {
    ('\n' <= c <= '\r') || c == '\U{0085}' || c == '\U{2028}' || c == '\U{2029}'
  }

  /** Foundation's `CharacterSet.whitespacesAndNewlines`. */
  predicate IsWhitespaceOrNewline(c: char) {
    IsWhitespace(c) || IsNewline(c)
  }

  // ---------------------------------------------------------------------------
  // Trimming (`trimmingCharacters(in:)`)
  // ---------------------------------------------------------------------------

  /** `r` is `s` with every leading and trailing character of the set `ws` removed:
      a contiguous slice of `s`, everything cut off on either side is in `ws`,
      and neither end of `r` is in `ws`. */
  ghost predicate IsTrimOf(ws: char -> bool, r: string, s: string) {
    && (r == [] || (!ws(r[0]) && !ws(r[|r| - 1])))
    && exists i :: 0 <= i <= |s| - |r| && IsTrimAt(ws, r, s, i)
  }

  ghost predicate IsTrimAt(ws: char -> bool, r: string, s: string, i: int)
    requires 0 <= i <= |s| - |r|
  {
    && r == s[i..i + |r|]
    && (forall k :: 0 <= k < i ==> ws(s[k]))
    && (forall k :: i + |r| <= k < |s| ==> ws(s[k]))
  }

  /** Index of the first character at or after `i` that is not in `ws` (or `|s|`). */
  function LeadingEnd(ws: char -> bool, s: string, i: nat): (b: nat)
    requires i <= |s|
    ensures i <= b <= |s|
    ensures forall k :: i <= k < b ==> ws(s[k])
    ensures b < |s| ==> !ws(s[b])
    decreases |s| - i
  {
    if i < |s| && ws(s[i]) then LeadingEnd(ws, s, i + 1) else i
  }

  /** Index just after the last character below `hi` and at or above `lo` that is not in `ws`
      (or `lo`). */
  function TrailingStart(ws: char -> bool, s: string, lo: nat, hi: nat): (e: nat)
    requires lo <= hi <= |s|
    ensures lo <= e <= hi
    ensures forall k :: e <= k < hi ==> ws(s[k])
    ensures lo < e ==> !ws(s[e - 1])
  {
    if lo < hi && ws(s[hi - 1]) then TrailingStart(ws, s, lo, hi - 1) else hi
  }

  /** `s.trimmingCharacters(in: ws)`. */
  function Trim(ws: char -> bool, s: string): (r: string)
    ensures IsTrimOf(ws, r, s)
  {
    var b := LeadingEnd(ws, s, 0);
    var e := TrailingStart(ws, s, b, |s|);
    assert IsTrimAt(ws, s[b..e], s, b);
    s[b..e]
  }

  /** There is only one way to trim a string: `IsTrimOf` determines its result. */
  lemma TrimOfUnique(ws: char -> bool, r1: string, r2: string, s: string)
    requires IsTrimOf(ws, r1, s) && IsTrimOf(ws, r2, s)
    ensures r1 == r2
  {
    var i1 :| 0 <= i1 <= |s| - |r1| && IsTrimAt(ws, r1, s, i1);
    var i2 :| 0 <= i2 <= |s| - |r2| && IsTrimAt(ws, r2, s, i2);
    // The first and last kept characters are not in ws, everything cut off is.
    assert r1 != [] ==> s[i1] == r1[0] && s[i1 + |r1| - 1] == r1[|r1| - 1];
    assert r2 != [] ==> s[i2] == r2[0] && s[i2 + |r2| - 1] == r2[|r2| - 1];
    if r1 != [] && r2 != [] {
      assert i1 == i2;
      var j1, j2 := i1 + |r1|, i2 + |r2|;
      assert s[j1 - 1] == r1[|r1| - 1] && s[j2 - 1] == r2[|r2| - 1];
      assert j1 == j2;
    }
  }

  /** A string whose ends are not in `ws` is its own trim. */
  lemma TrimOfTrimmed(ws: char -> bool, s: string)
    requires s == [] || (!ws(s[0]) && !ws(s[|s| - 1]))
    ensures Trim(ws, s) == s
  {
    assert IsTrimAt(ws, s, s, 0);
    TrimOfUnique(ws, Trim(ws, s), s, s);
  }

  // ---------------------------------------------------------------------------
  // ValidationHelper
  // ---------------------------------------------------------------------------

  /** `sanitize`: trims whitespace and line breaks from both ends. */
  function Sanitize(s: string): (r: string)
    ensures IsTrimOf(IsWhitespaceOrNewline, r, s)
  {
    Trim(IsWhitespaceOrNewline, s)
  }

  /** Sanitizing is idempotent. */
  lemma SanitizeIdempotent(s: string)
    ensures Sanitize(Sanitize(s)) == Sanitize(s)
  {
    TrimOfTrimmed(IsWhitespaceOrNewline, Sanitize(s));
  }

  /** `isValidPassword`: at least six characters. */
  predicate IsValidPassword(p: string) {
    |p| >= 6
  }

  const MaxNameLength: nat := 100

  /** `isValidName`: after trimming spaces and tabs, non-empty and at most 100 characters. */
  predicate IsValidName(n: string) {
    var t := Trim(IsWhitespace, n);
    |t| != 0 && |t| <= MaxNameLength
  }

  /** Sanitizing trims a superset of what `isValidName` trims, so on sanitized input the
      name check is a plain length check. */
  lemma NameCheckOnSanitized(s: string)
    ensures IsValidName(Sanitize(s)) <==> 0 < |Sanitize(s)| <= MaxNameLength
  {
    TrimOfTrimmed(IsWhitespace, Sanitize(s));
  }

  // ---------------------------------------------------------------------------
  // E-mail pattern ^[A-Za-z0-9._%+-]+@[A-Za-z0-9.-]+\.[A-Za-z]{2,}$
  // ---------------------------------------------------------------------------

  predicate IsAsciiLetter(c: char) {
    ('A' <= c <= 'Z') || ('a' <= c <= 'z')
  }

  predicate IsAsciiDigit(c: char) {
    '0' <= c <= '9'
  }

  /** `[A-Za-z0-9._%+-]` */
  predicate IsLocalChar(c: char) {
    IsAsciiLetter(c) || IsAsciiDigit(c) || c == '.' || c == '_' || c == '%' || c == '+' || c == '-'
  }

  /** `[A-Za-z0-9.-]` */
  predicate IsDomainChar(c: char) {
    IsAsciiLetter(c) || IsAsciiDigit(c) || c == '.' || c == '-'
  }

  /** `s` is `local@domain.tld` with the `@` at `at` and the final dot at `dot`:
      a non-empty local part, a non-empty domain, and a top-level domain of
      at least two ASCII letters. This is how the regular expression reads. */
  ghost predicate EmailShape(s: string, at: int, dot: int) {
    && 0 < at && at + 1 < dot && dot + 2 < |s|
    && s[at] == '@' && s[dot] == '.'
    && (forall k :: 0 <= k < at ==> IsLocalChar(s[k]))
    && (forall k :: at < k < dot ==> IsDomainChar(s[k]))
    && (forall k :: dot < k < |s| ==> IsAsciiLetter(s[k]))
  }

  ghost predicate MatchesEmailPattern(s: string) {
    exists at, dot :: EmailShape(s, at, dot)
  }

  /** `isValidEmail`, matching the pattern by hand: the local part ends at the first `@`
      (no character class of the pattern contains `@`) and the top-level domain starts
      after the last dot (it contains only letters). */
  predicate IsValidEmail(s: string) {
    match FindIndex(c => c == '@', s)
    case None => false
    case Some(at) =>
      match FindLastIndex(c => c == '.', s)
      case None => false
      case Some(dot) =>
        && 0 < at && at + 1 < dot && dot + 2 < |s|
        && (forall k :: 0 <= k < at ==> IsLocalChar(s[k]))
        && (forall k :: at < k < dot ==> IsDomainChar(s[k]))
        && (forall k :: dot < k < |s| ==> IsAsciiLetter(s[k]))
  }

  /** The hand-written matcher accepts exactly the strings the pattern describes. */
  lemma EmailMatcherCorrect(s: string)
    ensures IsValidEmail(s) <==> MatchesEmailPattern(s)
  {
    var firstAt := FindIndex(c => c == '@', s);
    var lastDot := FindLastIndex(c => c == '.', s);
    if IsValidEmail(s) {
      assert EmailShape(s, firstAt.value, lastDot.value);
    }
    if MatchesEmailPattern(s) {
      var at, dot :| EmailShape(s, at, dot);
      // No character before `at` is an `@`, and no character after `dot` is a dot.
      assert forall k :: 0 <= k < at ==> s[k] != '@';
      assert forall k :: dot < k < |s| ==> s[k] != '.';
      assert s[at] == '@' && s[dot] == '.';
    }
  }

  /** An accepted e-mail address holds exactly one `@`. */
  lemma ValidEmailHasOneAt(s: string)
    requires IsValidEmail(s)
    ensures exists at :: 0 <= at < |s| && s[at] == '@' && forall k :: 0 <= k < |s| && s[k] == '@' ==> k == at
  {
    EmailMatcherCorrect(s);
    var at, dot :| EmailShape(s, at, dot);
    assert forall k :: 0 <= k < |s| && k != at ==> s[k] != '@' by {
      assert forall k :: 0 <= k < at ==> IsLocalChar(s[k]);
      assert forall k :: at < k < dot ==> IsDomainChar(s[k]);
      assert forall k :: dot < k < |s| ==> IsAsciiLetter(s[k]);
    }
  }
}
