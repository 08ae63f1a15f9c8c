/**
 * `frequencyAnalysis`: the relative frequency of each letter `a`..`z` in a text,
 * case-folded, with the letters' counts divided by the number of letters (not by the
 * text's length). Frequencies are exact reals.
 */
module LetterFrequency {

  import opened Ascii

  /** `text.toLowerCase().replace(/[^a-z]/g, '')`, applied to an already lower-cased text. */
  function LettersOnly(s: string): (r: string)
    ensures |r| <= |s|
    ensures forall i :: 0 <= i < |r| ==> IsLetter(r[i])
    ensures forall c :: c in r <==> c in s && IsLetter(c)
  {
    if s == [] then []
    else
      assert s == s[..|s| - 1] + [s[|s| - 1]];
      LettersOnly(s[..|s| - 1]) + (if IsLetter(s[|s| - 1]) then [s[|s| - 1]] else [])
  }

  /** The number of letters is the number of positions holding one of the alphabet's characters. */
  lemma {:induction false} LettersOnlyLength(s: string)
    ensures |LettersOnly(s)| == CountIn(s, Alphabet)
  {
    AlphabetIsTheLetters();
    if s != [] {
      LettersOnlyLength(s[..|s| - 1]);
    }
  }

  /** The table `frequencyAnalysis` returns, as a specification. */
  function Frequencies(text: string): map<char, real>
  {
    var lower := ToLowerString(text);
    var total := |LettersOnly(lower)|;
    if total == 0 then map[]
    else map c | IsLetter(c) && Count(lower, c) > 0 :: Count(lower, c) as real / total as real
  }

  /**
   * Counts the letters of the lower-cased text into a dictionary in one pass, then
   * divides every count by the number of letters.
   */
  method FrequencyAnalysis(text: string) returns (freq: map<char, real>)
    ensures freq == Frequencies(text)
  {
    var lower := ToLowerString(text);
    var totalLetters := |LettersOnly(lower)|;
    if totalLetters == 0 {
      return map[];
    }
    var letterCount: map<char, nat> := map[];
    for i := 0 to |lower|
      invariant forall c :: c in letterCount <==> IsLetter(c) && Count(lower[..i], c) > 0
      invariant forall c :: c in letterCount ==> letterCount[c] == Count(lower[..i], c)
    {
      var ch := lower[i];
      assert lower[..i + 1] == lower[..i] + [ch];
      forall c ensures Count(lower[..i + 1], c) == Count(lower[..i], c) + (if ch == c then 1 else 0) {
        CountAppend(lower[..i], ch, c);
      }
      if IsLetter(ch) {
        letterCount := letterCount[ch := (if ch in letterCount then letterCount[ch] else 0) + 1];
      }
    }
    assert lower[..|lower|] == lower;
    freq := map k | k in letterCount :: letterCount[k] as real / totalLetters as real;
    LetterCountsGiveFrequencies(text, letterCount);
  }

  /** Dividing a table of the letters' positive counts by the number of letters gives `Frequencies`. */
  lemma LetterCountsGiveFrequencies(text: string, letterCount: map<char, nat>)
    requires |LettersOnly(ToLowerString(text))| > 0
    requires forall c :: c in letterCount <==> IsLetter(c) && Count(ToLowerString(text), c) > 0
    requires forall c :: c in letterCount ==> letterCount[c] == Count(ToLowerString(text), c)
    ensures (map k | k in letterCount :: letterCount[k] as real / |LettersOnly(ToLowerString(text))| as real)
      == Frequencies(text)
  {
    AlphabetIsTheLetters();
  }

  /** The entry of one letter: its count divided by the number of letters, or absent when the count is 0. */
  lemma FrequencyOfLetter(text: string, c: char)
    requires IsLetter(c)
    requires |LettersOnly(ToLowerString(text))| > 0
    ensures c in Frequencies(text) <==> Count(ToLowerString(text), c) > 0
    ensures c in Frequencies(text) ==>
      Frequencies(text)[c] == Count(ToLowerString(text), c) as real / |LettersOnly(ToLowerString(text))| as real
  {
    AlphabetIsTheLetters();
  }

  /** No letters, no entries; otherwise the keys are exactly the letters that occur. */
  lemma FrequenciesKeys(text: string)
    ensures Frequencies(text) == map[] <==> forall i :: 0 <= i < |text| ==> !IsLetter(ToLower(text[i]))
    ensures forall c :: c in Frequencies(text) <==> IsLetter(c) && c in ToLowerString(text)
  {
    var lower := ToLowerString(text);
    AlphabetIsTheLetters();
    LettersOnlyLength(lower);
    forall c ensures Count(lower, c) > 0 <==> c in lower {
      CountPositive(lower, c);
    }
    if |LettersOnly(lower)| == 0 {
      forall i | 0 <= i < |text| ensures !IsLetter(ToLower(text[i])) {
        assert lower[i] in lower;
      }
    } else {
      LetterPresent(lower);
      var i :| 0 <= i < |lower| && IsLetter(lower[i]);
      FrequencyOfLetter(text, lower[i]);
      assert lower[i] in Frequencies(text);
    }
  }

  /** A text with a positive number of letters has one letter that occurs. */
  lemma {:induction false} LetterPresent(s: string)
    requires |LettersOnly(s)| > 0
    ensures exists i :: 0 <= i < |s| && IsLetter(s[i])
  {
    var init := s[..|s| - 1];
    if !IsLetter(s[|s| - 1]) {
      LetterPresent(init);
      var i :| 0 <= i < |init| && IsLetter(init[i]);
      assert s[i] == init[i];
    }
  }

  lemma RatioInUnitInterval(a: nat, b: nat)
    requires 0 < a <= b
    ensures 0.0 < a as real / b as real <= 1.0
  {
  }

  /** Every frequency lies in (0, 1]. */
  lemma FrequenciesInUnitInterval(text: string)
    ensures forall c :: c in Frequencies(text) ==> 0.0 < Frequencies(text)[c] <= 1.0
  {
    var lower := ToLowerString(text);
    AlphabetIsTheLetters();
    LettersOnlyLength(lower);
    forall c | c in Frequencies(text) ensures 0.0 < Frequencies(text)[c] <= 1.0 {
      FrequencyOfLetter(text, c);
      CountBoundedByCountIn(lower, c, Alphabet);
      RatioInUnitInterval(Count(lower, c), |LettersOnly(lower)|);
    }
  }

  /** The value `freq` gives key `k` (0 when absent). */
  function ValueAt(freq: map<char, real>, k: char): real {
    if k in freq then freq[k] else 0.0
  }

  /** The values of `m` at the characters of `keys`, in order (0 for an absent key). */
  function ValuesOf(m: map<char, real>, keys: string): (r: seq<real>)
    ensures |r| == |keys|
  {
    if keys == [] then [] else [ValueAt(m, keys[0])] + ValuesOf(m, keys[1..])
  }

  /** The counts in `lower` of the characters of `keys`, in order. */
  function CountsOf(lower: string, keys: string): (r: seq<real>)
    ensures |r| == |keys|
  {
    if keys == [] then [] else [Count(lower, keys[0]) as real] + CountsOf(lower, keys[1..])
  }

  function Sum(xs: seq<real>): real {
    if xs == [] then 0.0 else xs[0] + Sum(xs[1..])
  }

  /** The sum of the values of `m` at the characters of `keys`. */
  function SumValues(m: map<char, real>, keys: string): real {
    Sum(ValuesOf(m, keys))
  }

  /** Each of `vs` times `t` is the corresponding element of `cs`. */
  predicate Scaled(vs: seq<real>, cs: seq<real>, t: real)
    requires |vs| == |cs|
  {
    vs == [] || (vs[0] * t == cs[0] && Scaled(vs[1..], cs[1..], t))
  }

  lemma SumTimesFactor(s: real, h: real, r: real, t: real, c: real, a: real, b: real)
    requires s == h + r && c == a + b
    requires h * t == a && r * t == b
    ensures s * t == c
  {
  }

  /** Scaling every element scales the sum. */
  lemma {:induction false} SumScaled(vs: seq<real>, cs: seq<real>, t: real)
    requires |vs| == |cs| && Scaled(vs, cs, t)
    ensures Sum(vs) * t == Sum(cs)
  {
    if vs != [] {
      SumScaled(vs[1..], cs[1..], t);
      SumTimesFactor(Sum(vs), vs[0], Sum(vs[1..]), t, Sum(cs), cs[0], Sum(cs[1..]));
    }
  }

  lemma ScaledCons(v: real, c: real, vs: seq<real>, cs: seq<real>, t: real)
    requires |vs| == |cs| && Scaled(vs, cs, t)
    requires v * t == c
    ensures Scaled([v] + vs, [c] + cs, t)
  {
    assert ([v] + vs)[1..] == vs && ([c] + cs)[1..] == cs;
  }

  lemma RatioTimesDivisor(a: real, b: real)
    requires b != 0.0
    ensures (a / b) * b == a
  {
  }

  lemma ValueTimesTotal(freq: map<char, real>, c: char, count: nat, total: real)
    requires total > 0.0
    requires c in freq ==> freq[c] == count as real / total
    requires c !in freq ==> count == 0
    ensures ValueAt(freq, c) * total == count as real
  {
    if c in freq {
      RatioTimesDivisor(count as real, total);
    }
  }

  /** A table that holds each letter's count divided by `total` is scaled at every letter of `keys`. */
  lemma {:induction false} RatiosAreScaled(freq: map<char, real>, lower: string, total: real, keys: string)
    requires total > 0.0
    requires forall c :: IsLetter(c) ==> (c in freq <==> Count(lower, c) > 0)
    requires forall c :: c in freq ==> freq[c] == Count(lower, c) as real / total
    requires forall i :: 0 <= i < |keys| ==> IsLetter(keys[i])
    ensures Scaled(ValuesOf(freq, keys), CountsOf(lower, keys), total)
  {
    if keys != [] {
      ValueTimesTotal(freq, keys[0], Count(lower, keys[0]), total);
      RatiosAreScaled(freq, lower, total, keys[1..]);
      ScaledCons(ValueAt(freq, keys[0]), Count(lower, keys[0]) as real,
                 ValuesOf(freq, keys[1..]), CountsOf(lower, keys[1..]), total);
    }
  }

  /** Adding up the counts as reals gives the total count. */
  lemma {:induction false} SumOfCounts(lower: string, keys: string)
    ensures Sum(CountsOf(lower, keys)) == SumCounts(lower, keys) as real
  {
    if keys != [] {
      SumOfCounts(lower, keys[1..]);
      assert CountsOf(lower, keys)[1..] == CountsOf(lower, keys[1..]);
    }
  }

  lemma UnitFactor(s: real, t: real)
    requires t > 0.0 && s * t == t
    ensures s == 1.0
  {
    assert (s - 1.0) * t == 0.0;
  }

  /** Values that are counts divided by a positive total, where the counts add up to that total, sum to 1. */
  lemma ScaledSumIsOne(vs: seq<real>, cs: seq<real>, total: real)
    requires |vs| == |cs| && Scaled(vs, cs, total)
    requires total > 0.0 && Sum(cs) == total
    ensures Sum(vs) == 1.0
  {
    var v := Sum(vs);
    SumScaled(vs, cs, total);
    assert v * total == Sum(cs);
    assert Sum(cs) == total;
    assert v * total == total;
    UnitFactor(v, total);
  }

  /** Over a text with at least one letter, the frequencies sum to 1. */
  lemma FrequenciesSumToOne(text: string)
    requires exists i :: 0 <= i < |text| && IsLetter(ToLower(text[i]))
    ensures SumValues(Frequencies(text), Alphabet) == 1.0
  {
    var lower := ToLowerString(text);
    var freq := Frequencies(text);
    var total := |LettersOnly(lower)|;
    AlphabetIsTheLetters();
    LettersOnlyLength(lower);
    var i :| 0 <= i < |text| && IsLetter(ToLower(text[i]));
    CountPositive(lower, lower[i]);
    CountBoundedByCountIn(lower, lower[i], Alphabet);
    forall c | IsLetter(c) ensures (c in freq <==> Count(lower, c) > 0)
      && (c in freq ==> freq[c] == Count(lower, c) as real / total as real)
    {
      FrequencyOfLetter(text, c);
    }
    RatiosAreScaled(freq, lower, total as real, Alphabet);
    SumOfCounts(lower, Alphabet);
    SumCountsIsCountIn(lower, Alphabet);
    ScaledSumIsOne(ValuesOf(freq, Alphabet), CountsOf(lower, Alphabet), total as real);
  }

  /** Upper- and lower-case spellings of a text give the same table. */
  lemma FrequenciesIgnoreCase(text: string)
    ensures Frequencies(ToUpperString(text)) == Frequencies(text)
    ensures Frequencies(ToLowerString(text)) == Frequencies(text)
  {
    LowerForgetsCase(text);
  }

}
