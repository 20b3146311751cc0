# Caesar cipher core, modelled in Dafny

The application is a small Angular page that encrypts, decrypts and breaks
Caesar (shift) ciphers over the Russian alphabet (32 capitals А..Я, without
Ё) and the English alphabet (A..Z). Its logic lives in a handful of private
methods of `AppComponent`. This project models those methods as pure Dafny
functions and proves what the page relies on:

- `Alphabets` holds the two alphabet constants, `indexOf`, and counting
  characters of a text.
- `ShiftCipher` models `getShiftOfAlphabetText`. Every letter moves `k` places
  along its own alphabet, using JavaScript's truncating `%` followed by the
  "add the length if negative" fix-up. Every other character is dropped.
  `Rotate` is an independent code-point definition that the shift is proved
  equal to.
- `Normalizer` models `filterText`. It upper-cases, folds Ё to Е, keeps
  letters of either alphabet, and optionally keeps only one alphabet.
- `Numeric` holds the JavaScript numbers the cryptanalysis uses. Finite
  values are exact reals, NaN is explicit, and +Infinity appears only as the
  initial minimum.
- `Frequency` holds the two reference frequency tables and `getFrequency`.
- `Cryptanalysis` models `decryptCaesarWithLeastSquares`. It tries every
  shift in [0, n) and keeps the first one whose sum of squared frequency
  deviations is strictly below the best so far. `RecoverShift` is the loop
  itself, and `IsFirstMinimum` is its declarative specification.
- `Grouping` models the display expression
  `replace(/\s/g, '').replace(/(\D{5})/g, '$1 ').trim()`, which shows every
  text in groups of five. On text without whitespace or digits, which is
  what every call site passes (the filtered or shifted letters), it is proved
  equal to the reference layout `Chunked`.

Where a natural reading of the application and its code differ, the model
follows the code:

- With no alphabet letter in the text, `getFrequency` computes 0 / 0 for
  every letter, which is NaN, not 0. Every candidate error is then NaN. NaN
  never compares below +Infinity, so key recovery returns its initial value
  0.
- A character outside both alphabets is not rejected by the cipher. It maps
  to the empty string and disappears from the output.
- With an empty alphabet the scan runs no iteration and returns 0, which is
  not an index of that alphabet.
- Ties and NaN errors are decided by the strict `<` of the scan. The first
  shift with the least finite error wins, and NaN errors are passed over.

## Model

| member | source | states |
|---|---|---|
| Alphabets.SourceSpelling | frontend/src/app/app.component.ts:220-221 | the two alphabet constants are, letter for letter, the Russian string without Ё and the English A..Z string |
| Alphabets.LetterIffMember | frontend/src/app/app.component.ts:297-299 | a character survives the cipher exactly when it belongs to the Russian or the English alphabet |
| Alphabets.AlphabetOfChoice | frontend/src/app/app.component.ts:300-306 | a letter is shifted within the alphabet it belongs to, in both directions of the iff, for each alphabet |
| Alphabets.AlphabetsDisjoint | frontend/src/app/app.component.ts:220-221 | no character is in both alphabets, so it does not matter that the English test at 304-306 overrides the Russian one |
| Alphabets.IndexOf | frontend/src/app/app.component.ts:308 | `indexOf` of a member returns a position inside the alphabet that holds that character |
| Alphabets.IndexOfFirst | frontend/src/app/app.component.ts:308 | `indexOf` returns the first occurrence: no earlier position holds the character |
| Alphabets.IndexOfDistinct | frontend/src/app/app.component.ts:308 | in an alphabet without repeated letters, `indexOf` inverts indexing |
| Alphabets.CountAtMostCountIn | frontend/src/app/app.component.ts:282-285 | one letter occurs at most as often as all alphabet letters together, so a share's numerator never exceeds its denominator |
| ShiftCipher.JsRem | frontend/src/app/app.component.ts:308 | JavaScript's `%` on a positive divisor: the result lies strictly between -n and n and takes the sign of the dividend |
| ShiftCipher.JsRemCongruent | frontend/src/app/app.component.ts:308 | the JavaScript remainder differs from the dividend by a multiple of the divisor, so with its bound and sign it is the truncated remainder |
| ShiftCipher.WrapIndexIsResidue | frontend/src/app/app.component.ts:308-312 | the truncating remainder plus the "add the length if negative" fix-up is the Euclidean residue, for negative shifts as well |
| ShiftCipher.ShiftChar | frontend/src/app/app.component.ts:295-314 | a character outside both alphabets becomes the empty string; a letter becomes exactly one character |
| ShiftCipher.ShiftCharSpec | frontend/src/app/app.component.ts:295-314 | a shifted letter is the letter at (index + k) mod n of its own alphabet, and equals its code-point rotation `Rotate` |
| ShiftCipher.ShiftText | frontend/src/app/app.component.ts:292-316 | the output has one character per letter of the input |
| ShiftCipher.ShiftTextSpec | frontend/src/app/app.component.ts:292-316 | output position i is the rotation by k of the i-th letter of the input |
| ShiftCipher.ShiftStaysInAlphabet | frontend/src/app/app.component.ts:300-314 | a text over one alphabet is shifted into a text over the same alphabet of the same length |
| ShiftCipher.ShiftedIsLetters | frontend/src/app/app.component.ts:292-316 | the output consists of letters only, so its letter sequence is itself |
| ShiftCipher.ShiftAppend | frontend/src/app/app.component.ts:293-315 | the cipher works character by character, so it distributes over concatenation |
| ShiftCipher.RotateCompose | frontend/src/app/app.component.ts:308-314 | shifting a letter by a and then by b is shifting it by a + b, within its alphabet |
| ShiftCipher.ShiftCompose | frontend/src/app/app.component.ts:292-316 | shifting a text by a and then by b is shifting it by a + b |
| ShiftCipher.ShiftZero | frontend/src/app/app.component.ts:292-316 | a zero shift only drops the characters outside both alphabets |
| ShiftCipher.RoundTrip | frontend/src/app/app.component.ts:292-316 | decrypting with -k after encrypting with k gives back the letters of the original text |
| ShiftCipher.RoundTripOnLetters | frontend/src/app/app.component.ts:292-316 | on a text of letters only, decrypting with -k after encrypting with k gives back the text exactly |
| ShiftCipher.Period | frontend/src/app/app.component.ts:308-314 | on a text over one alphabet, shifts that differ by that alphabet's length give the same output |
| ShiftCipher.MixedPeriod | frontend/src/app/app.component.ts:308-314 | on any text, shifts that differ by 416 (the least common multiple of 32 and 26) give the same output |
| ShiftCipher.ExampleForward | frontend/src/app/app.component.ts:308-314 | "ABC" shifted by 3 is "DEF" |
| ShiftCipher.ExampleWrap | frontend/src/app/app.component.ts:308-314 | "ABC" shifted by -1 wraps to "ZAB" |
| ShiftCipher.ExampleRussian | frontend/src/app/app.component.ts:308-314 | "ЭЮЯ" shifted by 2 wraps to "ЯАБ" |
| Normalizer.Upper | frontend/src/app/app.component.ts:322 | `toUpperCase` leaves every alphabet letter alone and changes a character only into a letter of either alphabet or into Ё |
| Normalizer.FilterText | frontend/src/app/app.component.ts:319-333 | the output is no longer than the input, contains only letters of the two alphabets, and only letters of the given alphabet when a non-empty one is passed |
| Normalizer.CanonFixesLetters | frontend/src/app/app.component.ts:322-329 | upper-casing and folding leave every alphabet letter unchanged |
| Normalizer.FoldsYo | frontend/src/app/app.component.ts:322-326 | both Ё and ё are normalised to Е |
| Normalizer.FilterCounts | frontend/src/app/app.component.ts:320-332 | every admissible character occurs in the output exactly as often as in the normalised input, and every other character not at all |
| Normalizer.FilterOrder | frontend/src/app/app.component.ts:320-332 | the output is a subsequence of the normalised input, so order is kept |
| Normalizer.FilterFixesKept | frontend/src/app/app.component.ts:319-333 | a text made only of characters the filter keeps passes through unchanged |
| Normalizer.FilterIdempotent | frontend/src/app/app.component.ts:319-333 | normalising twice with the same alphabet is normalising once |
| Normalizer.FilterAppend | frontend/src/app/app.component.ts:320-332 | filtering a concatenation filters each part |
| Normalizer.ExampleYolka | frontend/src/app/app.component.ts:319-333 | "ёлка" restricted to Russian becomes "ЕЛКА" |
| Normalizer.ExampleMixed | frontend/src/app/app.component.ts:319-333 | with no alphabet, "Hi, мир!" becomes "HIМИР" |
| Numeric.Less | frontend/src/app/app.component.ts:269 | the IEEE comparison `error < minError`: false for a NaN error, true for a finite error against +Infinity, and the ordinary `<` between finite values |
| Numeric.Quotient | frontend/src/app/app.component.ts:285 | a count over a total is NaN exactly when the total is 0 |
| Numeric.Square | frontend/src/app/app.component.ts:264 | `Math.pow(x, 2)` is NaN exactly when x is, and is otherwise non-negative |
| Numeric.SumFinite | frontend/src/app/app.component.ts:267 | the `reduce` sum is finite exactly when every term is finite |
| Frequency.Share | frontend/src/app/app.component.ts:282-285 | a letter's share is a number exactly when the text has at least one alphabet letter |
| Frequency.GetFrequency | frontend/src/app/app.component.ts:280-289 | the frequency map has a key for exactly the letters of the alphabet |
| Frequency.FrequencyBounds | frontend/src/app/app.component.ts:280-289 | each frequency is NaN exactly when the text has no alphabet letter; otherwise it is count / total and lies in [0, 1] |
| Frequency.PrefixSum | frontend/src/app/app.component.ts:280-289 | over any prefix of the alphabet, the frequencies add up to that prefix's share of the letters |
| Frequency.FrequenciesSumToOne | frontend/src/app/app.component.ts:280-289 | for a text with an alphabet letter, the frequencies over an alphabet without repeats sum to exactly 1 |
| Frequency.TableCoversAlphabet | frontend/src/app/app.component.ts:44-106 | each reference table has a key for exactly the letters of its alphabet, with every value in [0, 1] |
| Cryptanalysis.Lookup | frontend/src/app/app.component.ts:264 | a table lookup is a number exactly when the letter is a key of the table |
| Cryptanalysis.Deviations | frontend/src/app/app.component.ts:262-265 | one squared deviation per alphabet letter, finite exactly when the table has the letter and its frequency is finite |
| Cryptanalysis.ErrorsAt | frontend/src/app/app.component.ts:257-267 | entry s of the error list is the error of the text decrypted with -s |
| Cryptanalysis.ScanStep | frontend/src/app/app.component.ts:269-272 | one iteration of the strict-minimum scan keeps its invariant, whether or not the candidate is accepted |
| Cryptanalysis.ScanDone | frontend/src/app/app.component.ts:257-275 | a completed scan has found the first minimum |
| Cryptanalysis.RecoverShift | frontend/src/app/app.component.ts:253-276 | the returned shift is the first shift with the least finite error, or 0 when no error is finite; it lies in [0, n) or is 0 |
| Cryptanalysis.RecoveredShiftUnique | frontend/src/app/app.component.ts:253-276 | the first-minimum specification determines the shift uniquely |
| Cryptanalysis.NoLettersNoScore | frontend/src/app/app.component.ts:259-267 | a candidate plaintext without alphabet letters scores NaN |
| Cryptanalysis.EmptyCiphertext | frontend/src/app/app.component.ts:254-276 | an empty ciphertext yields shift 0 |
| Cryptanalysis.FiniteDeviations | frontend/src/app/app.component.ts:262-267 | the error is finite when the table covers the alphabet and every frequency is finite |
| Cryptanalysis.BuiltInScoresFinite | frontend/src/app/app.component.ts:257-267 | with a built-in alphabet and its own table, a non-empty ciphertext over that alphabet gives every shift a finite error |
| Cryptanalysis.RecoveredShiftIsFirstMinimum | frontend/src/app/app.component.ts:253-276 | for such a ciphertext the recovered shift is in [0, n); no shift has a smaller error, and every earlier shift has a strictly larger one |
| Grouping.IsSpace | frontend/src/app/app.component.ts:190 | the class `\s`, which is also what `trim()` removes; no whitespace character is a digit or an alphabet letter |
| Grouping.StripSpaces | frontend/src/app/app.component.ts:190 | removing whitespace leaves no whitespace |
| Grouping.StripCounts | frontend/src/app/app.component.ts:190 | `replace(/\s/g, '')` keeps every non-whitespace character exactly as often as it occurs and no whitespace at all |
| Grouping.StripOrder | frontend/src/app/app.component.ts:190 | the characters that `replace(/\s/g, '')` keeps stay in their original order |
| Grouping.TrimStart | frontend/src/app/app.component.ts:190 | the start of `trim()`: the result is a suffix of the text, everything cut off is whitespace, and it does not start with whitespace |
| Grouping.TrimEnd | frontend/src/app/app.component.ts:190 | the end of `trim()`: the result is a prefix of the text, everything cut off is whitespace, and it does not end with whitespace |
| Grouping.Trim | frontend/src/app/app.component.ts:190 | `trim()` returns a contiguous piece of the text, so only leading and trailing whitespace is removed; the result has no whitespace at either end, and a text without whitespace at its ends is unchanged |
| Grouping.Format | frontend/src/app/app.component.ts:190 | the displayed text neither starts nor ends with whitespace |
| Grouping.FormatKeepsText | frontend/src/app/app.component.ts:190 | with whitespace removed, the displayed text is the input with whitespace removed |
| Grouping.GroupPlain | frontend/src/app/app.component.ts:190 | on a digit-free text, the five-character replacement is the reference grouping plus one trailing space when the length is a positive multiple of five |
| Grouping.FormatPlain | frontend/src/app/app.component.ts:190 | on a text without whitespace or digits, the display equals the reference grouping |
| Grouping.FormatLayout | frontend/src/app/app.component.ts:190 | on such a text, spaces sit exactly at positions 5, 11, 17, ..., the text's characters fill the other positions in order, the length is n + (n - 1) / 5, and removing the spaces gives the text back |
| Grouping.FilterUndoesFormat | frontend/src/app/app.component.ts:188-190 | normalising a displayed normalised text gives back that text |

## Left out

- The user interface is not modelled. This covers forms, validators, the loading flag, `ngAfterViewInit` and `maxLengthMessageFactory`.
- The orchestration methods `encrypt`, `decrypt` and `breakCipher` are not modelled. They chain `filterText`, the display expression and `getShiftOfAlphabetText`, with the shift negated for decryption and `-bestShift` used after key recovery. Of that chaining, only `FilterUndoesFormat` is stated.
- The sample ciphertext and other page constants are not modelled. They are data, not behaviour.
- Floating-point rounding is not modelled. Finite numbers are exact reals, so the frequencies sum to exactly 1 here but only approximately in doubles. A tie between two errors in the model may also be broken by rounding in the program.
- Shifts are integers. The form's non-integer values, and values beyond 2^53 where doubles lose precision, are not modelled.
- Numeric.Quotient: its requires excludes a positive count over a zero total, which would be +Infinity. That case never arises from `getFrequency`, because a letter is never counted more often than the total.
- Normalizer.Upper models `toUpperCase` only for the characters whose upper case is a single letter of either alphabet, and for ё, whose upper case Ё is then folded to Е. Ё itself and the alphabet letters are already upper case and are left as they are, and Ё is then folded to Е as well. Every other character is left unchanged in the model. In the program such a character upper-cases to something that is neither an alphabet letter nor Ё, or to several characters, so the filter drops it in both.
- `split('')` splits a text into UTF-16 code units, while a Dafny `char` is a Unicode scalar value. A character outside the Basic Multilingual Plane is two units in the program, and neither unit is a letter, so both are dropped. In the model it is one character, which is dropped too. The grouping expression's `\D{5}` likewise counts UTF-16 code units where `GroupFives` counts characters, so such a character would be grouped differently; it never reaches the expression, because every call site (lines 190, 194, 208, 212, 234 and 244) passes the output of `filterText` or of the cipher, which is letters only.
- The frequency tables are keyed by `char` here rather than by arbitrary strings. The lookup is only ever made with single alphabet letters.
- Nothing claims that the recovered shift is the true key. The least-squares score is a heuristic, and the model proves only that the scan returns the first minimum of that score.
