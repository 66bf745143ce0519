/**
 * The data-annotation rules used on the request objects, one predicate per
 * attribute, with the semantics of System.ComponentModel.DataAnnotations:
 * every attribute except `Required` accepts null.
 */
module Annotations {
  import opened Optional

  /** `char.IsWhiteSpace`: the Unicode separators Zs, Zl and Zp plus
      U+0009..U+000D, U+0085 and U+00A0. */
  predicate IsWhiteSpace(c: char) {
    || c == ' '
    || '\t' <= c <= '\r'
    || c == '\U{85}'
    || c == '\U{A0}'
    || c == '\U{1680}'
    || '\U{2000}' <= c <= '\U{200A}'
    || c == '\U{2028}'
    || c == '\U{2029}'
    || c == '\U{202F}'
    || c == '\U{205F}'
    || c == '\U{3000}'
  }

  /** `string.IsNullOrEmpty`, the test behind `ThrowIfNullOrEmpty`. */
  predicate IsNullOrEmpty(s: Option<string>) {
    s.None? || |s.value| == 0
  }

  /** `string.IsNullOrWhiteSpace`. */
  predicate IsNullOrWhiteSpace(s: Option<string>) {
    s.None? || forall i :: 0 <= i < |s.value| ==> IsWhiteSpace(s.value[i])
  }

  /** `[Required]` on a string: not null and not whitespace only. */
  predicate RequiredString(s: Option<string>) {
    !IsNullOrWhiteSpace(s)
  }

  /** `[Required]` on a nullable value (`bool?`, `DateTime?`, a key object). */
  predicate Required<T>(v: Option<T>) {
    v.Some?
  }

  /** `[StringLength(max)]`. */
  predicate StringLength(s: Option<string>, max: nat) {
    s.None? || |s.value| <= max
  }

  /** `[StringLength(maximumLength: max, MinimumLength = min)]`. */
  predicate StringLengthBetween(s: Option<string>, min: nat, max: nat) {
    s.None? || min <= |s.value| <= max
  }

  predicate IsAsciiDigit(c: char) {
    '0' <= c <= '9'
  }

  /** The whole string is `[0-9]{n}`: exactly `n` ASCII digits and nothing after them. */
  predicate Digits(s: string, n: nat)
    decreases n
  {
    if n == 0 then |s| == 0
    else |s| > 0 && IsAsciiDigit(s[0]) && Digits(s[1..], n - 1)
  }

  /** The whole string matches `^0[0-9]{10}$`: a `0`, then ten digits, then the end. */
  predicate MatchesPhonePattern(s: string) {
    |s| > 0 && s[0] == '0' && Digits(s[1..], 10)
  }

  /** `[RegularExpression("^0[0-9]{10}$")]`: null and the empty string pass
      unmatched; any other string must be matched in full. */
  predicate PhoneRegex(s: Option<string>) {
    IsNullOrEmpty(s) || MatchesPhonePattern(s.value)
  }

  /** `[EmailAddress]`; the address check itself belongs to the framework
      and is passed in as `isEmail`. */
  predicate EmailAddress(isEmail: string -> bool, s: Option<string>) {
    s.None? || isEmail(s.value)
  }

  /** `[Compare(other)]`: `object.Equals`, so two nulls agree. */
  predicate Compare<T(==)>(v: Option<T>, other: Option<T>) {
    v == other
  }

  /** A required string is never null or empty: `Required` is stricter than
      the `ThrowIfNullOrEmpty` guard. */
  lemma RequiredStringIsNotNullOrEmpty(s: Option<string>)
    ensures RequiredString(s) ==> !IsNullOrEmpty(s)
  {
  }

  /** Every non-empty, whitespace-only name passes `ThrowIfNullOrEmpty` but
      fails `Required`. */
  lemma BlankNamePassesEmptinessGuard(s: string)
    ensures |s| > 0 && (forall i :: 0 <= i < |s| ==> IsWhiteSpace(s[i])) ==>
              !IsNullOrEmpty(Some(s)) && !RequiredString(Some(s))
  {
  }

  /** `[0-9]{n}` matches exactly the strings of `n` characters that are all digits. */
  lemma {:induction false} DigitsAreAllDigits(s: string, n: nat)
    ensures Digits(s, n) <==> |s| == n && forall i :: 0 <= i < |s| ==> IsAsciiDigit(s[i])
    decreases n
  {
    if n > 0 && |s| > 0 {
      DigitsAreAllDigits(s[1..], n - 1);
      if forall i :: 0 <= i < |s| ==> IsAsciiDigit(s[i]) {
        assert forall i :: 0 <= i < |s[1..]| ==> IsAsciiDigit(s[1..][i]) by {
          forall i | 0 <= i < |s[1..]| ensures IsAsciiDigit(s[1..][i]) {
            assert s[1..][i] == s[i + 1];
          }
        }
      }
    }
  }

  /** Any phone the pattern accepts has exactly 11 characters, so the pattern
      rule implies the length rule. */
  lemma {:induction false} PhonePatternHasLength(s: string)
    ensures MatchesPhonePattern(s) ==> StringLengthBetween(Some(s), 11, 11)
  {
    if |s| > 0 {
      DigitsAreAllDigits(s[1..], 10);
    }
  }

  /** The two phone attributes together accept exactly null and the strings
      matching the pattern: the empty string passes the regular expression
      but not the length rule. */
  lemma PhoneRulesTogether(s: Option<string>)
    ensures StringLengthBetween(s, 11, 11) && PhoneRegex(s)
            <==> s.None? || MatchesPhonePattern(s.value)
  {
    if s.Some? {
      PhonePatternHasLength(s.value);
    }
  }
}
