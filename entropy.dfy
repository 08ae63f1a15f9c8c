/**
 * `calculateEntropy`: the Shannon entropy, in bits, of the character distribution of
 * a case-folded text. An empty text has entropy 0. The per-character counts are kept
 * in a dictionary whose keys appear in the order the characters first occur; the
 * probabilities are the counts divided by the text's length.
 *
 * `Math.log2` is a floating-point library function; it is the parameter `log2` here,
 * and the lemmas that need its values say so in their `requires`.
 */
module Entropy {

  import opened Ascii

  /** The distinct characters of `s`, in order of first occurrence (the counter's key order). */
  function Distinct(s: string): (r: string)
    ensures NoDuplicates(r)
    ensures forall c :: c in r <==> c in s
  {
    if s == [] then []
    else
      var d := Distinct(s[..|s| - 1]);
      var last := s[|s| - 1];
      assert s == s[..|s| - 1] + [last];
      if last in d then d else d + [last]
  }

  /** One summand `p * log2(p)` (0 when `p` is not positive), with `p = count / length`. */
  function Term(count: nat, length: nat, log2: real -> real): real
    requires length > 0
  {
    var p := count as real / length as real;
    if p > 0.0 then p * log2(p) else 0.0
  }

  /** The summands of the characters of `keys`, added in order. */
  function SumTerms(lower: string, keys: string, length: nat, log2: real -> real): real
    requires length > 0
  {
    if keys == [] then 0.0
    else SumTerms(lower, keys[..|keys| - 1], length, log2) + Term(Count(lower, keys[|keys| - 1]), length, log2)
  }

  /** The value `calculateEntropy` returns, as a specification. */
  function Entropy(text: string, log2: real -> real): real
  {
    if text == [] then 0.0
    else
      var lower := ToLowerString(text);
      -SumTerms(lower, Distinct(lower), |text|, log2)
  }

  /**
   * Returns 0 for the empty text; otherwise counts every character of the lower-cased
   * text into a dictionary, then sums `p * log2(p)` over the dictionary's values and
   * negates the sum.
   */
  method CalculateEntropy(text: string, log2: real -> real) returns (entropy: real)
    ensures entropy == Entropy(text, log2)
    ensures text == [] ==> entropy == 0.0
  {
    if text == [] {
      return 0.0;
    }
    var lower := ToLowerString(text);
    var counter, keys := CountCharacters(lower);
    var length := |text|;
    var sum := 0.0;
    for j := 0 to |keys|
      invariant sum == SumTerms(lower, keys[..j], length, log2)
    {
      SumTermsStep(lower, keys, j, length, log2);
      sum := sum + Term(counter[keys[j]], length, log2);
    }
    assert keys[..|keys|] == keys;
    entropy := -sum;
  }

  /** Adding the next key's summand extends the sum by one key. */
  lemma SumTermsStep(lower: string, keys: string, j: nat, length: nat, log2: real -> real)
    requires j < |keys| && length > 0
    ensures SumTerms(lower, keys[..j + 1], length, log2)
      == SumTerms(lower, keys[..j], length, log2) + Term(Count(lower, keys[j]), length, log2)
  {
    assert keys[..j + 1][..j] == keys[..j];
  }

  /**
   * The histogram step: one pass that adds 1 to the entry of each character, creating
   * the entry (after the existing keys) on first sight. `keys` is the dictionary's key
   * order.
   */
  method CountCharacters(lower: string) returns (counter: map<char, nat>, keys: string)
    ensures keys == Distinct(lower)
    ensures forall c :: c in counter <==> c in lower
    ensures forall c :: c in counter ==> counter[c] == Count(lower, c)
  {
    counter := map[];
    keys := [];
    for i := 0 to |lower|
      invariant IsHistogram(lower[..i], counter, keys)
    {
      var ch := lower[i];
      assert lower[..i + 1] == lower[..i] + [ch];
      HistogramStep(lower[..i], ch, counter, keys);
      if ch !in counter {
        keys := keys + [ch];
      }
      counter := counter[ch := (if ch in counter then counter[ch] else 0) + 1];
    }
    assert lower[..|lower|] == lower;
  }

  /** `counter` and `keys` are the dictionary and key order after counting `s`. */
  predicate IsHistogram(s: string, counter: map<char, nat>, keys: string)
  {
    && keys == Distinct(s)
    && (forall c :: c in counter <==> c in s)
    && (forall c :: c in counter ==> counter[c] == Count(s, c))
  }

  /** Counting one more character keeps the dictionary and its key order right. */
  lemma HistogramStep(s: string, ch: char, counter: map<char, nat>, keys: string)
    requires IsHistogram(s, counter, keys)
    ensures IsHistogram(s + [ch],
      counter[ch := (if ch in counter then counter[ch] else 0) + 1],
      if ch in counter then keys else keys + [ch])
  {
    var t := s + [ch];
    var counter' := counter[ch := (if ch in counter then counter[ch] else 0) + 1];
    assert t[..|t| - 1] == s;
    assert Distinct(t) == if ch in counter then keys else keys + [ch];
    forall c ensures c in counter' <==> c in t {
      assert c in t <==> c in s || c == ch;
    }
    forall c | c in counter' ensures counter'[c] == Count(t, c) {
      CountAppend(s, ch, c);
      if c == ch && ch !in counter {
        CountPositive(s, ch);
      }
    }
  }

  lemma {:induction false} CountAtMostLength(s: string, c: char)
    ensures Count(s, c) <= |s|
  {
    if s != [] {
      CountAtMostLength(s[..|s| - 1], c);
    }
  }

  /** The histogram counts every position once: its counts add up to the text's length. */
  lemma HistogramSumsToLength(text: string)
    ensures SumCounts(ToLowerString(text), Distinct(ToLowerString(text))) == |text|
  {
    var lower := ToLowerString(text);
    SumCountsIsCountIn(lower, Distinct(lower));
    CountInCoversAll(lower, Distinct(lower));
  }

  lemma ProductNonPositive(p: real, l: real)
    requires p > 0.0 && l <= 0.0
    ensures p * l <= 0.0
  {
  }

  /** Every summand is a probability in (0, 1] times its logarithm. */
  lemma {:induction false} SumTermsNonPositive(lower: string, keys: string, length: nat, log2: real -> real)
    requires length == |lower| > 0
    requires forall p :: 0.0 < p <= 1.0 ==> log2(p) <= 0.0
    ensures SumTerms(lower, keys, length, log2) <= 0.0
  {
    if keys != [] {
      SumTermsNonPositive(lower, keys[..|keys| - 1], length, log2);
      var count := Count(lower, keys[|keys| - 1]);
      CountAtMostLength(lower, keys[|keys| - 1]);
      var p := count as real / length as real;
      if p > 0.0 {
        assert p <= 1.0;
        ProductNonPositive(p, log2(p));
      }
    }
  }

  /** With a logarithm that is non-positive on (0, 1], the entropy is non-negative. */
  lemma EntropyNonNegative(text: string, log2: real -> real)
    requires forall p :: 0.0 < p <= 1.0 ==> log2(p) <= 0.0
    ensures Entropy(text, log2) >= 0.0
  {
    if text != [] {
      var lower := ToLowerString(text);
      SumTermsNonPositive(lower, Distinct(lower), |text|, log2);
    }
  }

  lemma {:induction false} SingleCharacter(s: string, c: char)
    requires s != []
    requires forall i :: 0 <= i < |s| ==> s[i] == c
    ensures Distinct(s) == [c]
    ensures Count(s, c) == |s|
  {
    if |s| > 1 {
      SingleCharacter(s[..|s| - 1], c);
    }
  }

  /** A character that fills the whole text has probability 1, and `1 * log2(1)` is 0. */
  lemma TermOfWhole(n: nat, log2: real -> real)
    requires n > 0 && log2(1.0) == 0.0
    ensures Term(n, n, log2) == 0.0
  {
    assert n as real / n as real == 1.0;
  }

  lemma SumTermsOfOne(lower: string, c: char, length: nat, log2: real -> real)
    requires length > 0
    ensures SumTerms(lower, [c], length, log2) == Term(Count(lower, c), length, log2)
  {
    assert [c][..0] == [];
  }

  /** A text made of one character repeated (in either case) has entropy `-log2(1)`, which is 0. */
  lemma EntropyOfRepeatedCharacter(text: string, c: char, log2: real -> real)
    requires text != []
    requires forall i :: 0 <= i < |text| ==> ToLower(text[i]) == c
    requires log2(1.0) == 0.0
    ensures Entropy(text, log2) == 0.0
  {
    var lower := ToLowerString(text);
    SingleCharacter(lower, c);
    SumTermsOfOne(lower, c, |text|, log2);
    TermOfWhole(|text|, log2);
  }

  /** Case does not matter: the upper- and lower-case spellings have the same entropy. */
  lemma EntropyIgnoresCase(text: string, log2: real -> real)
    ensures Entropy(ToUpperString(text), log2) == Entropy(text, log2)
  {
    LowerForgetsCase(text);
  }

}
