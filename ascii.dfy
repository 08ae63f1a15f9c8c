/**
 * ASCII character classes, `toLowerCase`, and the counting facts shared by the
 * letter-frequency table and the entropy histogram. Everything here is restricted
 * to ASCII: JavaScript's Unicode case mapping is not modelled.
 */
module Ascii {

  /** `[A-Z]` */
  predicate IsUpper(c: char) { 'A' <= c <= 'Z' }

  /** `[a-z]`: the letters the frequency analysis keeps. */
  predicate IsLetter(c: char) { 'a' <= c <= 'z' }

  /** `[0-9]` */
  predicate IsDigit(c: char) { '0' <= c <= '9' }

  /** The ASCII members of the regular-expression class `\s`: space, tab, line feed, vertical tab, form feed, carriage return. */
  predicate IsWhitespace(c: char) {
    c == ' ' || c == '\t' || c == '\n' || c == '\U{000B}' || c == '\U{000C}' || c == '\r'
  }

  /** `toLowerCase` on one ASCII character. */
  function ToLower(c: char): (r: char)
    ensures IsUpper(c) ==> r as int == c as int + 32
    ensures !IsUpper(c) ==> r == c
    ensures !IsUpper(r)
    ensures IsLetter(r) <==> IsLetter(c) || IsUpper(c)
  {
    if IsUpper(c) then (c as int + 32) as char else c
  }

  /** `toUpperCase` on one ASCII character. */
  function ToUpper(c: char): (r: char)
    ensures IsLetter(c) ==> r as int == c as int - 32
    ensures !IsLetter(c) ==> r == c
    ensures !IsLetter(r)
    ensures IsUpper(r) <==> IsLetter(c) || IsUpper(c)
  {
    if IsLetter(c) then (c as int - 32) as char else c
  }

  /** `toLowerCase` on an ASCII string: same length, character by character. */
  function ToLowerString(s: string): (r: string)
    ensures |r| == |s|
    ensures forall i :: 0 <= i < |s| ==> r[i] == ToLower(s[i])
  {
    seq(|s|, i requires 0 <= i < |s| => ToLower(s[i]))
  }

  /** `toUpperCase` on an ASCII string. */
  function ToUpperString(s: string): (r: string)
    ensures |r| == |s|
    ensures forall i :: 0 <= i < |s| ==> r[i] == ToUpper(s[i])
  {
    seq(|s|, i requires 0 <= i < |s| => ToUpper(s[i]))
  }

  /** Lower-casing forgets the case the text was written in. */
  lemma LowerForgetsCase(s: string)
    ensures ToLowerString(ToLowerString(s)) == ToLowerString(s)
    ensures ToLowerString(ToUpperString(s)) == ToLowerString(s)
  {
  }

  predicate NoDuplicates(s: string) {
    forall i, j :: 0 <= i < j < |s| ==> s[i] != s[j]
  }

  /** The alphabet field of the simulation class. */
  const Alphabet: string := "abcdefghijklmnopqrstuvwxyz"

  /** The alphabet lists each of `a`..`z` exactly once. */
  lemma AlphabetIsTheLetters()
    ensures |Alphabet| == 26
    ensures forall c :: c in Alphabet <==> IsLetter(c)
    ensures NoDuplicates(Alphabet)
  {
    assert forall i :: 0 <= i < 26 ==> Alphabet[i] as int == 'a' as int + i;
    forall c | IsLetter(c) ensures c in Alphabet {
      assert Alphabet[c as int - 'a' as int] == c;
    }
  }

  /** Number of occurrences of `c` in `s`. */
  function Count(s: string, c: char): nat
  {
    if s == [] then 0 else Count(s[..|s| - 1], c) + (if s[|s| - 1] == c then 1 else 0)
  }

  /** Number of positions of `s` holding some character of `keys`. */
  function CountIn(s: string, keys: string): nat
  {
    if s == [] then 0 else CountIn(s[..|s| - 1], keys) + (if s[|s| - 1] in keys then 1 else 0)
  }

  /** The sum, over the characters of `keys`, of their number of occurrences in `s`. */
  function SumCounts(s: string, keys: string): nat
  {
    if keys == [] then 0 else Count(s, keys[0]) + SumCounts(s, keys[1..])
  }

  lemma {:induction false} CountAppend(s: string, x: char, c: char)
    ensures Count(s + [x], c) == Count(s, c) + (if x == c then 1 else 0)
  {
    assert (s + [x])[..|s|] == s;
  }

  /** A character occurs in `s` exactly when its count is positive. */
  lemma {:induction false} CountPositive(s: string, c: char)
    ensures Count(s, c) > 0 <==> c in s
  {
    if s != [] {
      var init := s[..|s| - 1];
      CountPositive(init, c);
      assert s == init + [s[|s| - 1]];
    }
  }

  /** One character cannot occur more often than all the characters of a set it belongs to. */
  lemma {:induction false} CountBoundedByCountIn(s: string, c: char, keys: string)
    requires c in keys
    ensures Count(s, c) <= CountIn(s, keys)
  {
    if s != [] {
      CountBoundedByCountIn(s[..|s| - 1], c, keys);
    }
  }

  /** When every character of `s` is one of `keys`, counting `keys` counts all of `s`. */
  lemma {:induction false} CountInCoversAll(s: string, keys: string)
    requires forall i :: 0 <= i < |s| ==> s[i] in keys
    ensures CountIn(s, keys) == |s|
  {
    if s != [] {
      CountInCoversAll(s[..|s| - 1], keys);
    }
  }

  lemma {:induction false} SumCountsOfEmpty(keys: string)
    ensures SumCounts([], keys) == 0
  {
    if keys != [] {
      SumCountsOfEmpty(keys[1..]);
    }
  }

  lemma {:induction false} SumCountsAppend(s: string, x: char, keys: string)
    requires NoDuplicates(keys)
    ensures SumCounts(s + [x], keys) == SumCounts(s, keys) + (if x in keys then 1 else 0)
  {
    if keys != [] {
      CountAppend(s, x, keys[0]);
      assert NoDuplicates(keys[1..]) by {
        forall i, j | 0 <= i < j < |keys[1..]| ensures keys[1..][i] != keys[1..][j] {
          assert keys[1..][i] == keys[i + 1] && keys[1..][j] == keys[j + 1];
        }
      }
      SumCountsAppend(s, x, keys[1..]);
      assert x in keys <==> x == keys[0] || x in keys[1..] by {
        assert keys == [keys[0]] + keys[1..];
      }
      if x == keys[0] {
        assert x !in keys[1..] by {
          forall j | 0 <= j < |keys[1..]| ensures keys[1..][j] != x {
            assert keys[1..][j] == keys[j + 1];
          }
        }
      }
    }
  }

  /**
   * Summing the per-character counts over a duplicate-free list of characters gives
   * the number of positions of `s` that hold one of them.
   */
  lemma {:induction false} SumCountsIsCountIn(s: string, keys: string)
    requires NoDuplicates(keys)
    ensures SumCounts(s, keys) == CountIn(s, keys)
  {
    if s == [] {
      SumCountsOfEmpty(keys);
    } else {
      var init, x := s[..|s| - 1], s[|s| - 1];
      SumCountsIsCountIn(init, keys);
      SumCountsAppend(init, x, keys);
      assert init + [x] == s;
    }
  }

}
