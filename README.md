# Seccode security simulations, modelled in Dafny

Seccode is a browser application that demonstrates classical and modern security
techniques: it lets a user encrypt with Caesar, Vigenère and AES, measure entropy,
break a Caesar cipher by frequency analysis, store and verify a salted password
hash, and anonymise personal data. This project models the computational core of
those demos:

- the simulation class `SecuritySimulation` (`src/utils/securitySimulation.ts`):
  - the input validator `secureInput`;
  - the letter-frequency table `frequencyAnalysis`;
  - the chi-squared Caesar breaker `breakCaesarCipher`;
  - the character histogram and sum of `calculateEntropy`;
  - the hexadecimal initialisation vector of `generateRandomIV`;
  - `hashPassword`;
  - `anonymizeData`.
- the submit handler of the simulation panel (`src/components/SimulationPanel.tsx`):
  - the validation gate that runs before every demo;
  - the two-step Password Storage flow and its salt;
  - the key-length gate of the AES demo;
  - the Data Anonymization demo.

Each file is one module:

| file | module |
|---|---|
| `wrappers.dfy` | `Wrappers`: `Option` (JavaScript's `null` is `None`) |
| `ascii.dfy` | `Ascii`: character classes, `toLowerCase`/`toUpperCase`, counting |
| `input_validation.dfy` | `InputValidation`: `secureInput` |
| `letter_frequency.dfy` | `LetterFrequency`: `frequencyAnalysis` |
| `caesar_breaker.dfy` | `CaesarBreaker`: `breakCaesarCipher` |
| `entropy.dfy` | `Entropy`: `calculateEntropy` |
| `hex_encoding.dfy` | `HexEncoding`: `generateRandomIV` |
| `password_hashing.dfy` | `PasswordHashing`: `hashPassword` |
| `anonymization.dfy` | `Anonymization`: `anonymizeData` |
| `simulation_panel.dfy` | `SimulationPanel`: the panel's state and `handleSubmit` |

Code with loops becomes a `method` with loop invariants, proved equal to a specification function. Properties are then proved about that function. This covers:

- `FrequencyAnalysis`;
- `BreakCaesarCipher` and its inner loop `ChiSquareStatistic`;
- `CalculateEntropy` and its histogram pass `CountCharacters`;
- `GenerateRandomIV`.

The panel is a class `Panel` whose fields are the component's state. `HandleSubmit` changes them in place, and its contract says the new state is `Submit(old state, …)`.

Two kinds of values are parameters of the model:

- Code owned by libraries: the Caesar decipher, SHA-256 and `Math.log2`.
- Random sources: `crypto.getRandomValues` and `Math.random`.

Numbers are exact reals rather than floating point.

## Model

| member | source | states |
|---|---|---|
| `Ascii.ToLower` | src/utils/securitySimulation.ts:71 | `toLowerCase` on one ASCII character: `A`..`Z` become the matching `a`..`z` (code + 32), every other character is unchanged; the result is never upper-case, and is a letter iff the input was a letter of either case |
| `Ascii.ToUpper` | src/utils/securitySimulation.ts:71 | the counterpart of `toLowerCase`, used to state case-insensitivity: `a`..`z` become the matching `A`..`Z` (code - 32), every other character is unchanged; the result is never lower-case |
| `Ascii.ToLowerString` | src/utils/securitySimulation.ts:58 | `text.toLowerCase()` keeps the length and lower-cases every position |
| `Ascii.ToUpperString` | src/utils/securitySimulation.ts:71 | the upper-case spelling of a text keeps the length and upper-cases every position |
| `Ascii.LowerForgetsCase` | src/utils/securitySimulation.ts:71 | lower-casing is idempotent and erases the difference between an upper-cased and the original text |
| `Ascii.AlphabetIsTheLetters` | src/utils/securitySimulation.ts:8 | the `alphabet` field has 26 distinct characters, exactly `a`..`z` |
| `Ascii.CountAppend` | src/utils/securitySimulation.ts:59 | one more character adds one to its own count and none to any other |
| `Ascii.CountPositive` | src/utils/securitySimulation.ts:59 | a character has a positive count iff it occurs, so the counter's keys are the characters that occur |
| `Ascii.CountBoundedByCountIn` | src/utils/securitySimulation.ts:71-74 | a letter's count is at most the number of letters |
| `Ascii.CountInCoversAll` | src/utils/securitySimulation.ts:57-61 | when every character is a key, the keys' positions are all the positions |
| `Ascii.SumCountsAppend` | src/utils/securitySimulation.ts:58-60 | counting one more character adds one to the sum over distinct keys exactly when it is a key |
| `Ascii.SumCountsIsCountIn` | src/utils/securitySimulation.ts:57-61 | the per-key counts over distinct keys add up to the number of positions holding a key |
| `InputValidation.MatchesSafePattern` | src/utils/securitySimulation.ts:19 | the anchored regular expression `^[a-zA-Z0-9\s]*$`, one character per step of the star; characterised by `MatchesSafePatternExactly` |
| `InputValidation.MatchesSafePatternExactly` | src/utils/securitySimulation.ts:19 | `^[a-zA-Z0-9\s]*$` matches a string iff every character is a letter, digit or whitespace |
| `InputValidation.SecureInput` | src/utils/securitySimulation.ts:17-21 | the result is non-null iff the input is at most `maxLength` long and every character is allowed; a non-null result is the input unchanged |
| `InputValidation.SecureInputIdempotent` | src/utils/securitySimulation.ts:17-21 | validating an accepted string again accepts it again, unchanged |
| `InputValidation.SecureInputAcceptsEmpty` | src/utils/securitySimulation.ts:18-19 | the empty string passes the validator |
| `InputValidation.SecureInputSamples` | src/utils/securitySimulation.ts:17-21 | `hello world` passes; `hello!` fails for its character; a 21-character string fails for its length |
| `LetterFrequency.LettersOnly` | src/utils/securitySimulation.ts:71 | `replace(/[^a-z]/g, '')` keeps only letters, keeps every letter that occurs, and never lengthens the text |
| `LetterFrequency.LettersOnlyLength` | src/utils/securitySimulation.ts:71 | the number of letters left after removing `[^a-z]` is the number of positions holding an alphabet letter |
| `LetterFrequency.FrequencyAnalysis` | src/utils/securitySimulation.ts:69-79 | the one-pass dictionary loop returns exactly the specification table `Frequencies` |
| `LetterFrequency.LetterCountsGiveFrequencies` | src/utils/securitySimulation.ts:76-78 | dividing the letters' positive counts by the number of letters gives the specification table |
| `LetterFrequency.FrequencyOfLetter` | src/utils/securitySimulation.ts:73-78 | a letter is a key iff it occurs, and its value is its count over the number of letters |
| `LetterFrequency.FrequenciesKeys` | src/utils/securitySimulation.ts:71-75 | the table is empty iff the text has no letter; its keys are exactly the letters that occur |
| `LetterFrequency.LetterPresent` | src/utils/securitySimulation.ts:71-72 | a positive letter count means some position holds a letter |
| `LetterFrequency.FrequenciesInUnitInterval` | src/utils/securitySimulation.ts:76-78 | every frequency lies in (0, 1] |
| `LetterFrequency.ValuesOf` | src/utils/securitySimulation.ts:76-78 | one table value per key listed |
| `LetterFrequency.CountsOf` | src/utils/securitySimulation.ts:73-75 | one count per key listed |
| `LetterFrequency.SumScaled` | src/utils/securitySimulation.ts:77 | if every value is its count over `t`, the values' sum times `t` is the counts' sum |
| `LetterFrequency.ValueTimesTotal` | src/utils/securitySimulation.ts:77 | a letter's frequency times the number of letters is its count (0 for an absent letter) |
| `LetterFrequency.RatiosAreScaled` | src/utils/securitySimulation.ts:76-78 | the table's values over any list of letters are their counts scaled by the total |
| `LetterFrequency.SumOfCounts` | src/utils/securitySimulation.ts:73-75 | the counts summed as reals equal the counts summed as naturals |
| `LetterFrequency.ScaledSumIsOne` | src/utils/securitySimulation.ts:76-78 | counts over a positive total that add up to the total give values summing to 1 |
| `LetterFrequency.FrequenciesSumToOne` | src/utils/securitySimulation.ts:69-79 | for a text with at least one letter, the frequencies over `a`..`z` sum to 1 |
| `LetterFrequency.FrequenciesIgnoreCase` | src/utils/securitySimulation.ts:71-73 | upper-, lower- and mixed-case spellings of a text give the same table |
| `CaesarBreaker.EnglishFrequency` | src/utils/securitySimulation.ts:9-15 | `freqEnglish`, entry for entry: positive (and below 1) exactly on `a`..`z`, 0 for a key the table lacks |
| `CaesarBreaker.Expected` | src/utils/securitySimulation.ts:90 | the expected frequency, with the 0.001 fallback, is always positive, so no term divides by zero |
| `CaesarBreaker.ChiSquareTerm` | src/utils/securitySimulation.ts:91 | every chi-squared term is non-negative |
| `CaesarBreaker.ScoresUpTo` | src/utils/securitySimulation.ts:85 | one score per shift tried so far |
| `CaesarBreaker.ScoreAt` | src/utils/securitySimulation.ts:85-92 | entry `s` of the score list is the score of shift `s` |
| `CaesarBreaker.ScoreOfShift` | src/utils/securitySimulation.ts:86-92 | entry `s` of the 26 scores is the chi-squared score of the decryption by shift `s` |
| `CaesarBreaker.BreakCaesarCipher` | src/utils/securitySimulation.ts:81-99 | the shift returned is in 0..25, scores no more than any shift, strictly less than every earlier one (first strict minimum), and the text returned is the decryption by that shift |
| `CaesarBreaker.ChiSquareStatistic` | src/utils/securitySimulation.ts:88-92 | the inner loop computes the chi-squared sum over the letters present in the table |
| `CaesarBreaker.FirstMinimumIsUnique` | src/utils/securitySimulation.ts:93-96 | a list has one first strict minimum |
| `CaesarBreaker.BestShiftIsUnique` | src/utils/securitySimulation.ts:93-96 | the breaker's answer is determined: two best shifts are equal |
| `CaesarBreaker.BestShiftIsLowestScoring` | src/utils/securitySimulation.ts:85-97 | the breaker's answer has the lowest score of all shifts' decryptions, ties going to the smallest shift |
| `CaesarBreaker.LowestScoringIsBestShift` | src/utils/securitySimulation.ts:85-97 | conversely, the smallest lowest-scoring shift is the breaker's answer |
| `CaesarBreaker.BestScoreNonNegative` | src/utils/securitySimulation.ts:88-92 | the winning score is non-negative |
| `CaesarBreaker.ChiSquareOverNonNegative` | src/utils/securitySimulation.ts:88-92 | every chi-squared sum is non-negative |
| `CaesarBreaker.ChiSquareOverEmpty` | src/utils/securitySimulation.ts:72 | an empty table (no letters) scores 0 |
| `CaesarBreaker.FallbackNeverUsed` | src/utils/securitySimulation.ts:90 | every key of a candidate's table is a letter with a positive reference frequency, so the 0.001 fallback is never taken |
| `CaesarBreaker.NoLettersBreaksToShiftZero` | src/utils/securitySimulation.ts:82-96 | when no decryption contains a letter, the breaker answers shift 0 |
| `Entropy.Distinct` | src/utils/securitySimulation.ts:57-60 | the counter's key order lists every character of the text once and nothing else |
| `Entropy.CalculateEntropy` | src/utils/securitySimulation.ts:55-67 | the method returns the specification entropy, and 0 for the empty text |
| `Entropy.SumTermsStep` | src/utils/securitySimulation.ts:62-65 | the reduce adds one key's `p * log2(p)` per step |
| `Entropy.CountCharacters` | src/utils/securitySimulation.ts:57-60 | the histogram's keys are exactly the characters that occur, in first-occurrence order, each mapped to its count |
| `Entropy.HistogramStep` | src/utils/securitySimulation.ts:59 | adding one to a character's entry (creating it at the end if new) keeps the histogram right |
| `Entropy.CountAtMostLength` | src/utils/securitySimulation.ts:63 | a count never exceeds the text's length, so `p <= 1` |
| `Entropy.HistogramSumsToLength` | src/utils/securitySimulation.ts:57-61 | the histogram's counts add up to the text's length |
| `Entropy.SumTermsNonPositive` | src/utils/securitySimulation.ts:62-65 | with `log2` non-positive on (0, 1], the sum of `p * log2(p)` is non-positive |
| `Entropy.EntropyNonNegative` | src/utils/securitySimulation.ts:55-67 | with such a `log2`, the entropy is non-negative |
| `Entropy.SingleCharacter` | src/utils/securitySimulation.ts:57-60 | a text of one repeated character has that one key, counted at full length |
| `Entropy.TermOfWhole` | src/utils/securitySimulation.ts:63-64 | a character filling the whole text contributes `1 * log2(1) = 0` |
| `Entropy.SumTermsOfOne` | src/utils/securitySimulation.ts:62-65 | a one-key sum is that key's summand |
| `Entropy.EntropyOfRepeatedCharacter` | src/utils/securitySimulation.ts:55-67 | a text of one character repeated, in either case, has entropy 0 |
| `Entropy.EntropyIgnoresCase` | src/utils/securitySimulation.ts:58 | upper- and lower-case spellings have the same entropy |
| `HexEncoding.HexDigit` | src/utils/securitySimulation.ts:42 | a value below 16 is written as a lower-case hexadecimal digit |
| `HexEncoding.HexValue` | src/utils/securitySimulation.ts:42 | reading a digit gives a value below 16 |
| `HexEncoding.HexDigitRoundTrip` | src/utils/securitySimulation.ts:42 | reading a written digit gives back its value |
| `HexEncoding.ToHexString` | src/utils/securitySimulation.ts:42 | `toString(16)` writes at least one lower-case hexadecimal digit |
| `HexEncoding.ToHexStringDenotes` | src/utils/securitySimulation.ts:42 | the digits of `toString(16)` denote the number, with no leading zero except for 0 |
| `HexEncoding.PadStart` | src/utils/securitySimulation.ts:42 | `padStart` reaches the target length, keeps the string as its suffix and fills only with the fill character |
| `HexEncoding.ByteToHex` | src/utils/securitySimulation.ts:42 | every byte is written as exactly two digits, high nibble then low nibble |
| `HexEncoding.HexEncode` | src/utils/securitySimulation.ts:42 | `n` bytes give `2n` lower-case hexadecimal digits |
| `HexEncoding.HexEncodeShape` | src/utils/securitySimulation.ts:42 | byte `i` sits at positions `2i` (high nibble) and `2i + 1` (low nibble) |
| `HexEncoding.NibblesRecombine` | src/utils/securitySimulation.ts:42 | a byte's two digits read back as that byte |
| `HexEncoding.DecodeLastPair` | src/utils/securitySimulation.ts:42 | decoding a string followed by one byte's digits appends that byte |
| `HexEncoding.HexDecodeEncode` | src/utils/securitySimulation.ts:39-43 | decoding the hexadecimal string recovers the bytes |
| `HexEncoding.GenerateRandomIV` | src/utils/securitySimulation.ts:39-43 | the array filled with the random bytes and mapped byte by byte gives the hexadecimal encoding of those bytes, `2 * length` digits long |
| `HexEncoding.HexEncodeStep` | src/utils/securitySimulation.ts:42 | each mapped byte appends its two digits to the join |
| `HexEncoding.AesIvShape` | src/utils/securitySimulation.ts:46 | the AES demo's 16 random bytes give 32 digits that decode back to those bytes |
| `PasswordHashing.HashPassword` | src/utils/securitySimulation.ts:101-103 | the digest of the salt followed by the password; `HashPasswordMatches` and `HashPasswordSaltFirst` state what follows about equal and different inputs |
| `PasswordHashing.HashPasswordMatches` | src/utils/securitySimulation.ts:101-103 | equal passwords give equal hashes under one salt; with a collision-free digest, only equal passwords do |
| `PasswordHashing.HashPasswordSaltFirst` | src/utils/securitySimulation.ts:101-103 | the salt is part of the hashed text: with a collision-free digest, two different salts give one password different hashes |
| `Anonymization.SliceLast` | src/utils/securitySimulation.ts:107 | `slice(-k)` keeps the last `min(k, length)` characters, a suffix of the string |
| `Anonymization.Split` | src/utils/securitySimulation.ts:108 | `split` always returns at least one piece |
| `Anonymization.SplitJoin` | src/utils/securitySimulation.ts:108 | joining the pieces of `split` with the separator gives back the string, and no piece holds the separator |
| `Anonymization.SplitWithoutSeparator` | src/utils/securitySimulation.ts:108 | a string without `@` splits into itself alone |
| `Anonymization.SplitAfterFirst` | src/utils/securitySimulation.ts:108 | a separator-free head followed by the separator is the first piece, and the rest splits on its own |
| `Anonymization.SplitFirstPiece` | src/utils/securitySimulation.ts:108 | a separator-free head that ends the string or meets a separator is the first piece |
| `Anonymization.SplitSecondField` | src/utils/securitySimulation.ts:108 | `split('@')[1]` is the text between the first `@` and the next one or the end |
| `Anonymization.Domain` | src/utils/securitySimulation.ts:108 | an address without `@` has the domain `undefined` |
| `Anonymization.DomainOfAddress` | src/utils/securitySimulation.ts:108 | the domain of `local@domain…` is the text between the first `@` and the next |
| `Anonymization.FirstCharacter` | src/utils/securitySimulation.ts:108 | `email[0]` is the first character, or `undefined` for the empty address |
| `Anonymization.AnonymizeData` | src/utils/securitySimulation.ts:105-111 | the name keeps its last three characters after `***`; the phone keeps its last four after `XXX-XXX-`; an address without `@` ends in `***@undefined` |
| `Anonymization.AnonymizeDataReveals` | src/utils/securitySimulation.ts:105-111 | a masked address `local@domain…` shows only its first character (the `@` itself when `local` is empty) and the domain; the masked name and phone have lengths `3 + min(3, n)` and `8 + min(4, n)` |
| `Anonymization.AnonymizeDataWithoutAt` | src/utils/securitySimulation.ts:108 | a non-empty address without `@` becomes its first character followed by `***@undefined` |
| `SimulationPanel.SaltFromNibbles` | src/components/SimulationPanel.tsx:184 | every nibble written with `toString(16)` and joined: only lower-case hexadecimal digits |
| `SimulationPanel.SaltShape` | src/components/SimulationPanel.tsx:184 | every nibble is written as one digit, so the salt has one digit per nibble, in order |
| `SimulationPanel.NewSaltIsSalt` | src/components/SimulationPanel.tsx:184 | the fresh salt is 16 lower-case hexadecimal digits |
| `SimulationPanel.Panel.constructor` | src/components/SimulationPanel.tsx:25-31 | first render: empty input and key, no output, no stored hash or salt |
| `SimulationPanel.Panel.SetInput` | src/components/SimulationPanel.tsx:280 | typing changes the input and nothing else |
| `SimulationPanel.Panel.SetKey` | src/components/SimulationPanel.tsx:290 | typing a key changes the key and nothing else |
| `SimulationPanel.Panel.HandleSubmit` | src/components/SimulationPanel.tsx:70-265 | one click turns the state into `Submit` of the old state: output cleared, gate, then the selected demo's branch |
| `SimulationPanel.Panel.SubmitPassword` | src/components/SimulationPanel.tsx:176-207 | the Password Storage branch turns the state into `PasswordStep` of the old state |
| `SimulationPanel.ValidationGate` | src/components/SimulationPanel.tsx:74-78 | outside Password Storage, the invalid-input message appears iff the validator returns null or the empty string, and then only the output changes |
| `SimulationPanel.EmptyInputRejected` | src/components/SimulationPanel.tsx:74-78 | the empty input passes the validator but is refused by every demo except Password Storage |
| `SimulationPanel.InvalidPasswordKeepsState` | src/components/SimulationPanel.tsx:177-181 | an invalid or empty password shows the error and keeps the stored hash, the salt and the input |
| `SimulationPanel.FirstEntryStoresHash` | src/components/SimulationPanel.tsx:183-189 | with no stored hash, a valid password stores a 16-digit salt and the digest of salt followed by password, shows both, and clears the input |
| `SimulationPanel.SecondEntryVerifies` | src/components/SimulationPanel.tsx:190-206 | with a stored hash, the verdict is success iff the password's digest under the stored salt equals it, failure otherwise; the hash, salt and input are cleared |
| `SimulationPanel.TwoEntries` | src/components/SimulationPanel.tsx:176-207 | repeating the password always verifies; with a collision-free digest only repeating it does; the flow ends with no stored hash or salt |
| `SimulationPanel.AesKeyGate` | src/components/SimulationPanel.tsx:247-257 | the AES demo encrypts iff the key has 16, 24 or 32 characters; an empty key and any other length get their messages; only the output changes |
| `SimulationPanel.SubmitKeepsConsistent` | src/components/SimulationPanel.tsx:183-206 | a stored hash always comes with a 16-digit salt: every submit sets and clears them together |
| `SimulationPanel.OtherDemosKeepPasswordState` | src/components/SimulationPanel.tsx:70-265 | every demo other than Password Storage changes only the output |
| `SimulationPanel.AnonymizationDemo` | src/components/SimulationPanel.tsx:209-215 | the demo shows the masked typed name with `t***@example.com` and `XXX-XXX-7890` |
| `SimulationPanel.SampleAnonymized` | src/components/SimulationPanel.tsx:210-212 | with the fixed address and number, only the name varies in the masked data |

Proof helpers about plain arithmetic and sequences have no row, because they model no source line:

- `Ascii.SumCountsOfEmpty`;
- `LetterFrequency.SumTimesFactor`, `LetterFrequency.RatioTimesDivisor`, `LetterFrequency.UnitFactor`, `LetterFrequency.ScaledCons` and `LetterFrequency.RatioInUnitInterval`;
- `CaesarBreaker.SquareOverPositive`;
- `Entropy.ProductNonPositive`;
- `PasswordHashing.SaltedTextsDiffer`.

## Left out

- AES encryption and decryption (`aesEncrypt`, `aesDecrypt`), and the SHA-256 digest are library code. SHA-256 is the parameter `sha256`, and a lemma that needs it injective says so. The AES demo is modelled up to its key gate; after that its output is an opaque `DemoRun` record.
- `caesarEncrypt`, `caesarDecrypt`, `vigenereEncrypt` and `vigenereDecrypt` delegate to a library. The decipher is the parameter `caesarDecrypt`, and nothing is assumed about it.
- `differentialPrivacy` and `laplaceNoise` are left out: they are floating-point arithmetic over random noise.
- Floating point: frequencies, chi-squared scores and entropies are exact reals. Rounding, `Infinity` (modelled as the `Bound` datatype) and `isNaN` are not modelled.
- `Math.log2` is the parameter `log2`. The lemmas that need its sign or `log2(1) == 0` say so in their `requires`.
- Randomness: the bytes of `crypto.getRandomValues` and the nibbles of `Math.random` are inputs.
- Unicode: only ASCII case mapping is modelled, and `\s` covers only the ASCII whitespace characters.
- Lengths are counted in characters, not in UTF-16 code units as JavaScript's `.length` counts them. The model is faithful for text within the Basic Multilingual Plane, which includes everything `secureInput` accepts. For a character outside it, the source counts 2 and the model 1.
- `SimulationPanel.AesKeyGate` counts the unvalidated key in characters. A key of eight characters outside the Basic Multilingual Plane has length 16 in JavaScript and passes the source's gate (SimulationPanel.tsx line 253); the model rejects it with the length message.
- `Entropy.HistogramSumsToLength` equates the counts with the length in characters. For text outside the Basic Multilingual Plane, the source's `text.length` (line 61) is larger, and its probabilities are smaller.
- The other demos (Caesar, Vigenère, entropy, comparison, leakage, differential privacy, TLS handshake, vulnerability examples) are not modelled beyond the gate. Their output is the `DemoRun` record.
- Also outside the model:
  - `parseInt`;
  - charts (`setChartData`);
  - the language selector;
  - descriptions and placeholders;
  - all rendering.
- `CaesarBreaker.ChiSquareStatistic` adds the terms in alphabet order, not in the table's insertion order. With exact reals the order does not change the sum. With floating point it could change the last bits.
- `CaesarBreaker.EnglishFrequency` gives 0 to characters outside the table. The source's lookup gives `undefined`, and `|| 0.001` treats both the same way.
- `Entropy.CalculateEntropy` sums in first-occurrence key order. A JavaScript object lists integer-like keys (the digits) first, but this only reorders an exact sum.
- `SimulationPanel.Panel.SubmitPassword` keeps the handler's repeated validation of the second password. Nothing changes between the two calls, so the repeated check can never fail and its error branch is unreachable.
