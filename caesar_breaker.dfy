/**
 * `breakCaesarCipher`: try every shift 0..25, score each candidate decryption by its
 * chi-squared distance from the English letter-frequency table, and keep the first
 * shift with the strictly lowest score.
 *
 * The Caesar decipher itself belongs to an external library; it is a parameter here
 * (`caesarDecrypt(text, shift)`), and nothing below depends on what it does.
 */
module CaesarBreaker {

  import opened Ascii
  import opened LetterFrequency

  /**
   * The reference frequency of an English letter (`freqEnglish`); any other key is
   * absent from that table, written 0 here.
   */
  function EnglishFrequency(c: char): (r: real)
    ensures r > 0.0 <==> IsLetter(c)
    ensures r < 1.0
  {
    match c
    case 'a' => 0.082 case 'b' => 0.015 case 'c' => 0.028 case 'd' => 0.043 case 'e' => 0.127
    case 'f' => 0.022 case 'g' => 0.020 case 'h' => 0.061 case 'i' => 0.070 case 'j' => 0.002
    case 'k' => 0.008 case 'l' => 0.040 case 'm' => 0.024 case 'n' => 0.067 case 'o' => 0.075
    case 'p' => 0.019 case 'q' => 0.001 case 'r' => 0.060 case 's' => 0.063 case 't' => 0.091
    case 'u' => 0.028 case 'v' => 0.010 case 'w' => 0.024 case 'x' => 0.002 case 'y' => 0.020
    case 'z' => 0.001
    case _ => 0.0
  }

  /** The floor used for a letter the reference table has no (or a zero) entry for. */
  const FallbackExpected: real := 0.001

  /** `freqEnglish[letter] || 0.001`: a missing or zero entry falls back to the floor. */
  function Expected(letter: char): (e: real)
    ensures e > 0.0
  {
    if EnglishFrequency(letter) != 0.0 then EnglishFrequency(letter) else FallbackExpected
  }

  /** One term `(f - expected) ** 2 / expected`. */
  function ChiSquareTerm(f: real, expected: real): (r: real)
    requires expected > 0.0
    ensures r >= 0.0
  {
    SquareOverPositive(f - expected, expected);
    (f - expected) * (f - expected) / expected
  }

  lemma SquareOverPositive(d: real, e: real)
    requires e > 0.0
    ensures d * d / e >= 0.0
  {
    assert d * d >= 0.0;
  }

  /** The chi-squared sum over those of `letters` that are keys of `freq`, accumulated in order. */
  function ChiSquareOver(freq: map<char, real>, letters: string): real
  {
    if letters == [] then 0.0
    else
      var letter := letters[|letters| - 1];
      ChiSquareOver(freq, letters[..|letters| - 1])
      + (if letter in freq then ChiSquareTerm(freq[letter], Expected(letter)) else 0.0)
  }

  /** The chi-squared statistic of a frequency table against English. */
  function ChiSquare(freq: map<char, real>): real
  {
    ChiSquareOver(freq, Alphabet)
  }

  /** The score of one candidate decryption. */
  function Score(candidate: string): real
  {
    ChiSquare(Frequencies(candidate))
  }

  /** The score of the candidate that shift `s` gives. */
  function ShiftScore(encrypted: string, caesarDecrypt: (string, int) -> string): int -> real
  {
    s => Score(caesarDecrypt(encrypted, s))
  }

  /** `score(0), ..., score(n - 1)`, in order. */
  function ScoresUpTo(score: int -> real, n: nat): (r: seq<real>)
    ensures |r| == n
  {
    if n == 0 then [] else ScoresUpTo(score, n - 1) + [score(n - 1)]
  }

  /** Entry `s` of the list is the score of `s`. */
  lemma {:induction false} ScoreAt(score: int -> real, n: nat, s: nat)
    requires s < n
    ensures ScoresUpTo(score, n)[s] == score(s)
  {
    if s < n - 1 {
      ScoreAt(score, n - 1, s);
    }
  }

  /** Entry `s` of the list is the score of the candidate that shift `s` gives. */
  lemma ScoreOfShift(encrypted: string, caesarDecrypt: (string, int) -> string, s: nat)
    requires s < 26
    ensures Scores(encrypted, caesarDecrypt)[s] == Score(caesarDecrypt(encrypted, s))
  {
    ScoreAt(ShiftScore(encrypted, caesarDecrypt), 26, s);
  }

  /** The score of every shift 0..25, in order. */
  function Scores(encrypted: string, caesarDecrypt: (string, int) -> string): seq<real>
  {
    ScoresUpTo(ShiftScore(encrypted, caesarDecrypt), 26)
  }

  /** `shift` indexes the first occurrence of the least element of `scores`. */
  predicate IsFirstMinimum(scores: seq<real>, shift: int)
  {
    && 0 <= shift < |scores|
    && (forall s :: 0 <= s < |scores| ==> scores[shift] <= scores[s])
    && (forall s :: 0 <= s < shift ==> scores[shift] < scores[s])
  }

  /** `shift` is the first shift in 0..25 whose candidate has the lowest score. */
  predicate IsBestShift(encrypted: string, caesarDecrypt: (string, int) -> string, shift: int)
  {
    IsFirstMinimum(Scores(encrypted, caesarDecrypt), shift)
  }

  /** The running minimum: `Infinity` before the first candidate. */
  datatype Bound = Infinity | Finite(value: real)

  predicate Below(x: real, b: Bound) {
    b.Infinity? || x < b.value
  }

  /**
   * Decrypts with every shift, computes the candidate's frequency table and its
   * chi-squared score, and keeps the shift of the first strict minimum; returns that
   * shift with the text decrypted by it.
   */
  method BreakCaesarCipher(encrypted: string, caesarDecrypt: (string, int) -> string)
    returns (shift: int, decrypted: string)
    ensures IsBestShift(encrypted, caesarDecrypt, shift)
    ensures decrypted == caesarDecrypt(encrypted, shift)
  {
    var bestShift := 0;
    var lowestChiSquare := Infinity;
    ghost var scores: seq<real> := [];
    for candidateShift := 0 to 26
      invariant scores == ScoresUpTo(ShiftScore(encrypted, caesarDecrypt), candidateShift)
      invariant candidateShift == 0 ==> lowestChiSquare == Infinity && bestShift == 0
      invariant candidateShift > 0 ==> IsFirstMinimum(scores, bestShift) && lowestChiSquare == Finite(scores[bestShift])
    {
      var candidate := caesarDecrypt(encrypted, candidateShift);
      var freq := FrequencyAnalysis(candidate);
      var chiSquare := ChiSquareStatistic(freq);
      scores := scores + [chiSquare];
      if Below(chiSquare, lowestChiSquare) {
        lowestChiSquare := Finite(chiSquare);
        bestShift := candidateShift;
      }
    }
    shift := bestShift;
    decrypted := caesarDecrypt(encrypted, bestShift);
  }

  /** The inner loop: add up the term of every letter present in the table, in alphabet order. */
  method ChiSquareStatistic(freq: map<char, real>) returns (chiSquare: real)
    ensures chiSquare == ChiSquare(freq)
  {
    chiSquare := 0.0;
    for i := 0 to |Alphabet|
      invariant chiSquare == ChiSquareOver(freq, Alphabet[..i])
    {
      var letter := Alphabet[i];
      assert Alphabet[..i + 1][..i] == Alphabet[..i];
      if letter in freq {
        var expected := Expected(letter);
        chiSquare := chiSquare + ChiSquareTerm(freq[letter], expected);
      }
    }
    assert Alphabet[..|Alphabet|] == Alphabet;
  }

  /** The first strict minimum of a list is unique. */
  lemma FirstMinimumIsUnique(scores: seq<real>, a: int, b: int)
    requires IsFirstMinimum(scores, a)
    requires IsFirstMinimum(scores, b)
    ensures a == b
  {
    assert scores[a] <= scores[b] && scores[b] <= scores[a];
  }

  /** At most one shift is the best. */
  lemma BestShiftIsUnique(encrypted: string, caesarDecrypt: (string, int) -> string, a: int, b: int)
    requires IsBestShift(encrypted, caesarDecrypt, a)
    requires IsBestShift(encrypted, caesarDecrypt, b)
    ensures a == b
  {
    FirstMinimumIsUnique(Scores(encrypted, caesarDecrypt), a, b);
  }

  /**
   * The best shift, stated on the candidates themselves: its candidate scores no more
   * than any other shift's, and strictly less than every earlier shift's.
   */
  ghost predicate LowestScoring(encrypted: string, caesarDecrypt: (string, int) -> string, shift: int)
  {
    && 0 <= shift < 26
    && (forall s :: 0 <= s < 26 ==> Score(caesarDecrypt(encrypted, shift)) <= Score(caesarDecrypt(encrypted, s)))
    && (forall s :: 0 <= s < shift ==> Score(caesarDecrypt(encrypted, shift)) < Score(caesarDecrypt(encrypted, s)))
  }

  /** The breaker's answer scores lowest, ties going to the earliest shift. */
  lemma BestShiftIsLowestScoring(encrypted: string, caesarDecrypt: (string, int) -> string, shift: int)
    requires IsBestShift(encrypted, caesarDecrypt, shift)
    ensures LowestScoring(encrypted, caesarDecrypt, shift)
  {
    var scores := Scores(encrypted, caesarDecrypt);
    ScoreOfShift(encrypted, caesarDecrypt, shift);
    forall s | 0 <= s < 26 ensures Score(caesarDecrypt(encrypted, shift)) <= Score(caesarDecrypt(encrypted, s)) {
      ScoreOfShift(encrypted, caesarDecrypt, s);
      assert scores[shift] <= scores[s];
    }
    forall s | 0 <= s < shift ensures Score(caesarDecrypt(encrypted, shift)) < Score(caesarDecrypt(encrypted, s)) {
      ScoreOfShift(encrypted, caesarDecrypt, s);
      assert scores[shift] < scores[s];
    }
  }

  /** Conversely, the lowest-scoring shift with no earlier tie is the breaker's answer. */
  lemma LowestScoringIsBestShift(encrypted: string, caesarDecrypt: (string, int) -> string, shift: int)
    requires LowestScoring(encrypted, caesarDecrypt, shift)
    ensures IsBestShift(encrypted, caesarDecrypt, shift)
  {
    var scores := Scores(encrypted, caesarDecrypt);
    ScoreOfShift(encrypted, caesarDecrypt, shift);
    forall s | 0 <= s < 26 ensures scores[shift] <= scores[s] {
      ScoreOfShift(encrypted, caesarDecrypt, s);
      assert Score(caesarDecrypt(encrypted, shift)) <= Score(caesarDecrypt(encrypted, s));
    }
    forall s | 0 <= s < shift ensures scores[shift] < scores[s] {
      ScoreOfShift(encrypted, caesarDecrypt, s);
      assert Score(caesarDecrypt(encrypted, shift)) < Score(caesarDecrypt(encrypted, s));
    }
  }

  /** The best score is non-negative, as every chi-squared sum is. */
  lemma BestScoreNonNegative(encrypted: string, caesarDecrypt: (string, int) -> string, shift: int)
    requires IsBestShift(encrypted, caesarDecrypt, shift)
    ensures Score(caesarDecrypt(encrypted, shift)) >= 0.0
  {
    ScoreOfShift(encrypted, caesarDecrypt, shift);
    ChiSquareOverNonNegative(Frequencies(caesarDecrypt(encrypted, shift)), Alphabet);
  }

  /** Every chi-squared sum is non-negative. */
  lemma {:induction false} ChiSquareOverNonNegative(freq: map<char, real>, letters: string)
    ensures ChiSquareOver(freq, letters) >= 0.0
  {
    if letters != [] {
      ChiSquareOverNonNegative(freq, letters[..|letters| - 1]);
    }
  }

  /** An empty table scores 0. */
  lemma {:induction false} ChiSquareOverEmpty(letters: string)
    ensures ChiSquareOver(map[], letters) == 0.0
  {
    if letters != [] {
      ChiSquareOverEmpty(letters[..|letters| - 1]);
    }
  }

  /** Every key of a candidate's table is a letter, so the floor 0.001 is never used for it. */
  lemma FallbackNeverUsed(candidate: string)
    ensures forall c :: c in Frequencies(candidate) ==> Expected(c) == EnglishFrequency(c) > 0.0
  {
    FrequenciesKeys(candidate);
  }

  /**
   * When no candidate decryption contains a letter, every score is 0 and the breaker
   * answers shift 0.
   */
  lemma NoLettersBreaksToShiftZero(encrypted: string, caesarDecrypt: (string, int) -> string, shift: int)
    requires forall s :: 0 <= s < 26 ==> Frequencies(caesarDecrypt(encrypted, s)) == map[]
    requires IsBestShift(encrypted, caesarDecrypt, shift)
    ensures shift == 0
  {
    ChiSquareOverEmpty(Alphabet);
    ScoreOfShift(encrypted, caesarDecrypt, 0);
    ScoreOfShift(encrypted, caesarDecrypt, shift);
  }

}
