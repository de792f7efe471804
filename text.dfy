/**
 * Character classes and the case-insensitive word search used by the
 * calibration-row patterns `(?i)ref\d*` and `(?i)dark\d*`.
 */
module Text {

  /** `\d` as the model reads it: an ASCII decimal digit. */
  predicate IsDigit(c: char) {
    '0' <= c <= '9'
  }

  predicate AllDigits(s: string) {
    forall k | 0 <= k < |s| :: IsDigit(s[k])
  }

  /** A search word written in lower-case ASCII letters, such as `ref` or `dark`. */
  type Word = w: string | forall k | 0 <= k < |w| :: 'a' <= w[k] <= 'z'

  const REF: Word := "ref"
  const DARK: Word := "dark"

  /**
   * `c` matches the lower-case letter `a` when the pattern is case-insensitive:
   * the letter itself, its upper-case form, and for `k` also the KELVIN SIGN,
   * which Unicode simple case folding maps to `k`.
   */
  predicate FoldsTo(c: char, a: char)
    requires 'a' <= a <= 'z'
  {
    c == a || c as int == a as int - 32 || (a == 'k' && c == '\U{212A}')
  }

  /** The word `w` occurs, ignoring case, at position `i` of `s`. */
  predicate MatchesAt(s: string, i: nat, w: Word) {
    i + |w| <= |s| && forall k | 0 <= k < |w| :: FoldsTo(s[i + k], w[k])
  }

  /**
   * Polars `str.contains` with a `(?i)w\d*` pattern: `w` anywhere in `s`, any
   * case (`ContainsIsCaseBlind`); a match needs `s` to be at least as long as `w`.
   */
  predicate ContainsIgnoreCase(s: string, w: Word)
    ensures ContainsIgnoreCase(s, w) ==> |w| <= |s|
  {
    exists i: nat | i <= |s| :: MatchesAt(s, i, w)
  }

  /**
   * Python `re.match` with a `(?i)w\d*` pattern: `s` begins with `w`, any case
   * (`StartsWithIsCaseBlind`).
   */
  predicate StartsWithIgnoreCase(s: string, w: Word)
    ensures StartsWithIgnoreCase(s, w) ==> |w| <= |s|
  {
    MatchesAt(s, 0, w)
  }

  /** A case-insensitive match at `i` is a match of the lower-cased string at `i`. */
  lemma MatchesAtLower(s: string, i: nat, w: Word)
    ensures MatchesAt(s, i, w) <==> MatchesAt(AsciiLower(s), i, w)
  {
    var l := AsciiLower(s);
    if i + |w| <= |s| {
      forall k | 0 <= k < |w|
        ensures FoldsTo(s[i + k], w[k]) <==> FoldsTo(l[i + k], w[k])
      {
      }
    }
  }

  /** Whether `s` contains `w` does not depend on the case of the ASCII letters of `s`. */
  lemma ContainsIsCaseBlind(s: string, w: Word)
    ensures ContainsIgnoreCase(s, w) <==> ContainsIgnoreCase(AsciiLower(s), w)
  {
    var l := AsciiLower(s);
    if i: nat :| i <= |s| && MatchesAt(s, i, w) {
      MatchesAtLower(s, i, w);
    }
    if i: nat :| i <= |s| && MatchesAt(l, i, w) {
      MatchesAtLower(s, i, w);
    }
  }

  /** Whether `s` starts with `w` does not depend on the case of the ASCII letters of `s`. */
  lemma StartsWithIsCaseBlind(s: string, w: Word)
    ensures StartsWithIgnoreCase(s, w) <==> StartsWithIgnoreCase(AsciiLower(s), w)
  {
    MatchesAtLower(s, 0, w);
  }

  /** A prefix match is also a substring match; the converse fails (see `Relative`). */
  lemma StartsWithImpliesContains(s: string, w: Word)
    requires StartsWithIgnoreCase(s, w)
    ensures ContainsIgnoreCase(s, w)
  {
    assert MatchesAt(s, 0, w);
  }

  /** Lower-cases the ASCII letters of `s` and leaves every other character alone. */
  function AsciiLower(s: string): (r: string)
    ensures |r| == |s|
    ensures forall k | 0 <= k < |s| :: ('A' <= s[k] <= 'Z' ==> r[k] as int == s[k] as int + 32)
    ensures forall k | 0 <= k < |s| :: (!('A' <= s[k] <= 'Z') ==> r[k] == s[k])
  {
    if s == [] then []
    else
      var c := s[0];
      [if 'A' <= c <= 'Z' then (c as int + 32) as char else c] + AsciiLower(s[1..])
  }
}
