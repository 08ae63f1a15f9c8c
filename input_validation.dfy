/** `secureInput`: the length and character-class gate every demo input passes through. */
module InputValidation {

  import opened Wrappers
  import opened Ascii

  /** The default `maxLength` of the validator. */
  const DefaultMaxLength: int := 20

  /** A member of the class `[a-zA-Z0-9\s]` (ASCII part of `\s` only). */
  predicate IsSafeChar(c: char) {
    IsUpper(c) || IsLetter(c) || IsDigit(c) || IsWhitespace(c)
  }

  /** Does the whole of `s` match `^[a-zA-Z0-9\s]*$`? The star consumes one character per step. */
  predicate MatchesSafePattern(s: string) {
    s == [] || (IsSafeChar(s[0]) && MatchesSafePattern(s[1..]))
  }

  /** The anchored pattern matches exactly the strings all of whose characters are in the class. */
  lemma {:induction false} MatchesSafePatternExactly(s: string)
    ensures MatchesSafePattern(s) <==> forall i :: 0 <= i < |s| ==> IsSafeChar(s[i])
  {
    if s != [] {
      MatchesSafePatternExactly(s[1..]);
      assert forall i :: 1 <= i < |s| ==> s[i] == s[1..][i - 1];
    }
  }

  /**
   * Returns the input unchanged when it is at most `maxLength` long and made only of
   * letters, digits and whitespace; `None` (JavaScript's `null`) otherwise.
   */
  function SecureInput(input: string, maxLength: int := DefaultMaxLength): (r: Option<string>)
    ensures r.Some? <==> |input| <= maxLength && forall i :: 0 <= i < |input| ==> IsSafeChar(input[i])
    ensures r.Some? ==> r.value == input
  {
    MatchesSafePatternExactly(input);
    if |input| > maxLength then None
    else if !MatchesSafePattern(input) then None
    else Some(input)
  }

  /** Validation is idempotent: a string it accepted is accepted again, unchanged. */
  lemma SecureInputIdempotent(input: string, maxLength: int)
    requires SecureInput(input, maxLength).Some?
    ensures SecureInput(SecureInput(input, maxLength).value, maxLength) == SecureInput(input, maxLength)
  {
  }

  /** The empty string passes: length 0 and a vacuous match. */
  lemma SecureInputAcceptsEmpty(maxLength: int)
    requires maxLength >= 0
    ensures SecureInput("", maxLength) == Some("")
  {
  }

  /** The three sample inputs: accepted, rejected for a character, rejected for length. */
  lemma SecureInputSamples()
    ensures SecureInput("hello world") == Some("hello world")
    ensures SecureInput("hello!") == None
    ensures SecureInput("abcdefghijklmnopqrstu") == None
  {
    assert !IsSafeChar("hello!"[5]);
  }

}
