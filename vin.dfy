/**
 * The composed `@Vin` constraint: `@NotBlank`, `@Size(min = 17, max = 17)` and
 * `@Pattern("^[A-HJ-NPR-Z0-9]{17}$")`, reported as one single violation.
 */
module Vin {
  import opened Wrappers
  import opened Text

  /** The fixed message every `@Vin` failure carries. */
  const Message: string := "VIN invalid (17 caractere, fara I/O/Q)"

  const Length: nat := 17

  /** One char of the class `[A-HJ-NPR-Z0-9]`: no I, O or Q, no lower case. */
  predicate IsVinChar(c: char) {
    ('A' <= c <= 'H') || ('J' <= c <= 'N') || c == 'P' || ('R' <= c <= 'Z') || ('0' <= c <= '9')
  }

  /** The anchored pattern `^[A-HJ-NPR-Z0-9]{17}$` on a present value. */
  predicate MatchesPattern(s: string) {
    |s| == Length && forall i :: 0 <= i < |s| ==> IsVinChar(s[i])
  }

  /** `@Size` and `@Pattern` accept null; `@NotBlank` does not. */
  predicate SizeHolds(v: Option<string>) {
    v.Some? ==> |v.value| == Length
  }

  predicate PatternHolds(v: Option<string>) {
    v.Some? ==> MatchesPattern(v.value)
  }

  /** The three composed constraints together. */
  predicate IsValid(v: Option<string>) {
    NotBlank(v) && SizeHolds(v) && PatternHolds(v)
  }

  /**
   * Matching the pattern already implies the size and non-blank parts, so the
   * composed check is exactly "present and matches the pattern".
   */
  lemma ValidIffPattern(v: Option<string>)
    ensures IsValid(v) <==> v.Some? && MatchesPattern(v.value)
  {
    if v.Some? && MatchesPattern(v.value) {
      var s := v.value;
      assert !IsTrimmable(s[0]);
      assert !AllTrimmable(s);
    }
  }

  /** A null VIN, and a VIN containing I, O, Q or a lower-case letter, is rejected. */
  lemma RejectsNullAndForbiddenChars(v: Option<string>, i: nat)
    requires v.None? || (i < |v.value| && (v.value[i] in "IOQ" || IsAsciiLower(v.value[i])))
    ensures !IsValid(v)
  {
    if v.Some? {
      assert !IsVinChar(v.value[i]);
    }
  }

  /** A valid VIN is already canonical: trimming and upper-casing leave it as it is. */
  lemma ValidIsCanonical(s: string)
    requires MatchesPattern(s)
    ensures Canonical(s) == s
  {
    assert !IsTrimmable(s[0]) && !IsTrimmable(s[|s| - 1]);
    TrimOfTrimmed(s);
    ToUpperOfUpper(s);
  }
}
