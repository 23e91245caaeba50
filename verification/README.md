# Participant codes: a Luhn mod 36 check scheme

The back end in `src/index.ts` gives every registered participant a seven-symbol code. The
symbols come from a 36-symbol alphabet, `CODE_POINTS`, which holds the digits and then the upper-case
letters. The first six symbols are random. The seventh is a check symbol computed with Luhn's mod N
algorithm (here N = 36). `isCodeValid` recomputes the checksum over all seven symbols. The
registration handler draws new codes until it finds one that is not already stored.

This project models that core in Dafny:

- `js_number.dfy`, module `JsNumber`: the two JavaScript number operations the scheme uses.
  - `Math.floor(a / n)` rounds down.
  - `a % n` truncates toward zero, so its result takes the sign of `a`.
  - Both are written out on unbounded integers.
- `alphabet.dfy`, module `Alphabet`:
  - `CODE_POINTS` and its size `N`.
  - `String.prototype.indexOf` and `charAt`.
  - The arithmetic code point of a character. It is proved to be exactly what `indexOf` returns on the
    alphabet: a position for an alphabet symbol, -1 for anything else.
- `luhn.dfy`, module `Luhn`: specification functions for the scheme.
  - The per-symbol fold `floor(a/36) + a%36`.
  - The right-to-left sum with alternating factors.
  - The check code point.
  - The code generated from given random draws.
  - The validator's verdict as written (`Valid`), and as the scheme intends it (`ValidStrict`).
  - The lemmas: soundness, single-substitution detection, and the counterexamples in "Findings".
- `codes.dfy`, module `ParticipantCodes`: the loops of the source as methods, each proved against the
  specification functions of `Luhn`.
  - `GenerateCode` and `IsCodeValid` follow `generateCode` and `isCodeValid` step by step, with the
    same variables (`factor`, `sum`, `n`, `codePoint`, `addend`, `remainder`).
  - `GenerateHumanReadableCode` follows `generateHumanReadableCode`. It appends each symbol to a string
    `code`, where the source pushes one-symbol strings into an array and joins them at the end.
  - `IssueCode` follows the registration handler's retry loop. Its variables are the attempt number
    and the current code, because the source keeps no counter.
  - `IsCodeValidStrict` is the corrected validator: the loop of `IsCodeValid`, returning false at the
    first symbol outside the alphabet.

Randomness is a parameter. Each call of `Math.random()` becomes one draw in 0..35, a `CodePoint`.
`Math.floor(Math.random() * 36)` always lands in 0..35, so a sequence of draws stands for any run of the
random source. The database query `isCodeExists` becomes membership in a set `issued` of stored codes.

## Model

| member | source | states |
|---|---|---|
| JsNumber.FloorDiv | src/index.ts:479 | `Math.floor(a / n)` is the largest q with n·q ≤ a, for a negative `a` too |
| JsNumber.Rem | src/index.ts:479 | JavaScript `%`: the result lies in 0..n-1 for a ≥ 0 and in -(n-1)..0 for a < 0, and differs from `a` by a multiple of n |
| JsNumber.RemZeroIffMultiple | src/index.ts:561-562 | `remainder == 0` (JavaScript's -0 included) holds exactly when the dividend is a multiple of n |
| Alphabet.CodePoints | src/index.ts:452 | `CODE_POINTS`: the 36 symbols in code-point order (spelled out by `CodePointsSpelledOut`) |
| Alphabet.N | src/index.ts:466 | the radix `n`, 36, the length of `CODE_POINTS` (`RadixIsAlphabetSize`) |
| Alphabet.CodePointsSpelledOut | src/index.ts:452 | the alphabet is "0123456789ABCDEFGHIJKLMNOPQRSTUVWXYZ" |
| Alphabet.RadixIsAlphabetSize | src/index.ts:466 | `n = CODE_POINTS.length` is 36 |
| Alphabet.CodePointsDistinct | src/index.ts:452 | no symbol occurs twice in the alphabet |
| Alphabet.IndexOf | src/index.ts:472 | `indexOf` returns -1 or a position in range that holds the character |
| Alphabet.IndexOfFirst | src/index.ts:472 | `indexOf` returns -1 exactly when the character is absent, and otherwise its first occurrence |
| Alphabet.CharAt | src/index.ts:488 | `charAt` gives the one character at an in-range index, and "" otherwise |
| Alphabet.CodePointOf | src/index.ts:550 | a code point is -1 or a position whose symbol is the character |
| Alphabet.CodePointOfSymbol | src/index.ts:452 | the symbol at code point i has code point i |
| Alphabet.InAlphabetIff | src/index.ts:452 | a character is a symbol exactly when it lies in '0'..'9' or 'A'..'Z', and exactly when its code point is not negative |
| Alphabet.IndexOfIsCodePointOf | src/index.ts:550 | `CODE_POINTS.indexOf(c)` is the code point of c: its position for a symbol, -1 for any other character |
| Alphabet.IndexOfY | src/index.ts:550 | 'Y' has code point 34 |
| Luhn.OtherFactor | src/index.ts:476 | `(factor == 2) ? 1 : 2`: the factor of the next symbol to the left |
| Luhn.Addend | src/index.ts:473-479 | the fold of one symbol: `factor * codePoint`, then `Math.floor(addend / n) + addend % n` with JavaScript's rounding |
| Luhn.Sum | src/index.ts:471-481 | the loop total: the folds of all code points taken right to left, the rightmost with the given factor, the factors alternating |
| Luhn.CodePointsOf | src/index.ts:550 | `CODE_POINTS.indexOf(code.charAt(i))` at every position i: the code point of each symbol, -1 outside the alphabet |
| Luhn.Generated | src/index.ts:456-491 | `generateCode()` for given draws: the six drawn symbols, then the symbol of their check code point |
| Luhn.Valid | src/index.ts:535-563 | `isCodeValid` as written: seven characters whose right-to-left fold sum, factors 1, 2, 1, ..., has JavaScript remainder 0 mod 36; characters outside the alphabet take part with code point -1 |
| Luhn.ValidStrict | src/index.ts:535-563 | the corrected validator: `Valid`, and every character is an alphabet symbol |
| Luhn.FactorAlternates | src/index.ts:476 | `factor = (factor == 2) ? 1 : 2` swaps the factor between 1 and 2 at every step to the left |
| Luhn.FactorNext | src/index.ts:554 | a run started one step later with the other factor sees the same factors |
| Luhn.AddendInAlphabet | src/index.ts:479 | on an alphabet code point c, the fold gives c under factor 1, 2c (c < 18) or 2c-35 (c ≥ 18) under factor 2, always in 0..35 |
| Luhn.AddendOutOfAlphabet | src/index.ts:550-557 | the code point -1 of a missing symbol folds to -2 under factor 1 and to -3 under factor 2 |
| Luhn.AddendInjective | src/index.ts:557 | under either factor, different alphabet code points fold to different values in 0..35 |
| Luhn.ShiftBreaksMultiple | src/index.ts:561-562 | trading one fold in 0..35 for a different one moves a multiple of 36 off the multiples |
| Luhn.SumBounds | src/index.ts:471-481 | over alphabet code points the sum lies in 0..35·length |
| Luhn.SumPrepend | src/index.ts:471-481 | one more symbol on the left adds its fold, taken with the factor of its distance from the right end |
| Luhn.SumStep | src/index.ts:549-559 | one loop iteration: the sum from position i is the fold at i plus the sum after i |
| Luhn.SumUpdate | src/index.ts:549-559 | replacing one code point changes the sum by the difference of its two folds |
| Luhn.CodePointsOfUpdate | src/index.ts:550 | replacing one character replaces exactly one looked-up code point |
| Luhn.Payload | src/index.ts:497-501 | the payload has one symbol per draw |
| Luhn.PayloadAt | src/index.ts:498 | the symbol at each position is the alphabet symbol of that position's draw |
| Luhn.PayloadLookup | src/index.ts:493-502 | looking the payload up again gives back the draws, and every payload symbol is in the alphabet |
| Luhn.CheckCodePoint | src/index.ts:485-486 | the check code point lies in 0..35 and completes the payload sum to a multiple of 36 |
| Luhn.GeneratedShape | src/index.ts:456-491 | a generated code has 7 alphabet symbols: the payload, then the symbol of the check code point |
| Luhn.GeneratedIsValid | src/index.ts:456-491 | soundness: every generated code passes `isCodeValid`, and also the strict validator |
| Luhn.ValidIffDivisible | src/index.ts:540-562 | on 7 symbols, `isCodeValid` is true exactly when the sum is divisible by 36 |
| Luhn.DivisibleIsValid | src/index.ts:540-562 | a 7-symbol string whose sum is divisible by 36 is accepted |
| Luhn.ValidSumBounds | src/index.ts:549-559 | over an all-alphabet string the validator's sum lies in 0..35·length |
| Luhn.LengthRejected | src/index.ts:540 | every string whose length is not 7 is rejected (the tests' "", "abc", "abcdef", "abcdefgh" among them) |
| Luhn.UpdateDetected | src/index.ts:549-562 | changing one alphabet code point of a checksum-0 sequence to a different alphabet code point breaks the checksum |
| Luhn.SubstitutionDetected | src/index.ts:549-562 | replacing one symbol of a valid all-alphabet code with a different alphabet symbol is always rejected |
| Luhn.GeneratedSubstitutionDetected | src/test/index.test.ts:16-36 | for generated codes, a different alphabet symbol at any of the 7 positions is rejected |
| Luhn.OutOfAlphabetSubstitutionUndetected | src/index.ts:550-562 | replacing a 'Y' anywhere in a valid code with any character outside the alphabet keeps it valid |
| Luhn.UpdateToMinusOneUndetected | src/index.ts:550-557 | trading a code point 34 for -1 lowers the sum by exactly 36 |
| Luhn.UpdateToMinusOneDetected | src/index.ts:550-562 | trading any alphabet code point other than 34 for -1 breaks a checksum of 0 |
| Luhn.OutOfAlphabetSubstitutionDetected | src/index.ts:550-562 | replacing an alphabet symbol other than 'Y' in a valid code with a character outside the alphabet is rejected |
| Luhn.OutOfAlphabetSubstitutionIff | src/test/index.test.ts:16-36 | in a valid code, trading an alphabet symbol for a character outside the alphabet goes undetected exactly when that symbol is 'Y' |
| Luhn.SumOfZeros | src/index.ts:471-481 | a payload of all '0' sums to 0 |
| Luhn.SumOfOneHot | src/index.ts:471-481 | a payload of '0's and one other symbol sums to that symbol's fold |
| Luhn.GeneratedExample | src/index.ts:456-491 | the draws for "000001" generate "000001Y" |
| Luhn.GeneratedExampleY | src/index.ts:456-491 | the draws for "Y00000" generate "Y000002" |
| Luhn.FindingInputsAccepted | src/test/index.test.ts:16-36 | "a000002" and "000001a", the generated "Y000002" and "000001Y" with one 'Y' replaced as the tests do, are both accepted |
| Luhn.FirstSymbolCounterexample | src/test/index.test.ts:16-25 | a generated code starting with 'Y' ("Y000002" among them) still validates with that symbol replaced by "a" |
| Luhn.CheckSymbolCounterexample | src/test/index.test.ts:27-36 | a generated code ending with 'Y' ("000001Y" among them) still validates with the check symbol replaced by "a" |
| Luhn.StrictSubstitutionDetected | src/test/index.test.ts:16-36 | under the strict validator, replacing any one symbol with any different character is rejected |
| ParticipantCodes.GenerateHumanReadableCode | src/index.ts:493-502 | the loop builds the payload of its draws |
| ParticipantCodes.GenerateCode | src/index.ts:456-491 | the right-to-left loop and the check-symbol step return exactly the generated code of the draws |
| ParticipantCodes.IsCodeValid | src/index.ts:535-563 | the loop returns the validator's verdict as written, and false for every length other than 7 |
| ParticipantCodes.IsCodeValidStrict | src/index.ts:535-563 | the same loop, returning false at the first symbol outside the alphabet, computes the strict verdict |
| ParticipantCodes.IssueCode | src/index.ts:210-213 | the retry loop returns the code of the first attempt whose code is not yet stored; that code is valid, and all earlier attempts' codes were already stored |

`Alphabet.Symbol`, `Alphabet.SymbolsInOrder`, `Alphabet.InAlphabet`, `Luhn.Factor`, `JsNumber.MultipleRem`,
`JsNumber.MulAtLeast` and `JsNumber.MulAtMost` are helpers. They state nothing about the source beyond what the
rows above state.

## Left out

- HTTP routing, request checks, the SQLite queries, signatures and tokens, and the username derivation of the
  registration handler are not part of this model. They are I/O around the core.
- `Math.random()`: replaced by the draws, one code point in 0..35 per call. The model covers every
  outcome, but it does not model the distribution.
- `isCodeExists`: a database query. It is modelled as membership in the set `issued`.
- ParticipantCodes.IssueCode: requires that some attempt in the supply yields an unstored code. The source
  loop has no bound and spins forever when none does, and a terminating Dafny method cannot model that run.
- JavaScript strings are UTF-16: `length` and `charAt` count code units. The model uses `seq<char>`, so a
  character outside the Basic Multilingual Plane counts as one symbol here and as two in JavaScript.
- `code.charAt(i)` in both loops is read as the character `code[i]`; `i` is always in range there. `indexOf`
  of a one-character string is the same search as for that character.
- Number overflow: every sum here is at most 7·35 in absolute value, so JavaScript doubles are exact, and
  unbounded integers model them faithfully.
- The tests at src/test/index.test.ts:16-36 expect a code with one symbol replaced by 'a' to be rejected.
  The code as written does not reject a symbol outside the alphabet: it folds the -1 from `indexOf` into the
  sum. The model follows the code (`Valid`, `IsCodeValid`); the behaviour the tests expect is `ValidStrict` /
  `IsCodeValidStrict` (see Findings).
- The tests import `checkCode` from `../index.ts` (src/test/index.test.ts:4), but `src/index.ts` exports no
  `checkCode`. Its exports are `handler`, `isCodeExists`, `generateCode`, `isCodeValid`, `getPlayerWithCode`
  and `getPlayerEmailWithCode`. As written, the import names a missing export. Everything said here about
  those tests reads their `checkCode` as `isCodeValid`, the validator it evidently stands for.

## Findings

| source | as written | input that shows it | evidently intended | confidence | as-written member | corrected member |
|---|---|---|---|---|---|---|
| src/index.ts:549-562 | `indexOf` returns -1 for a symbol outside the alphabet. That -1 is folded into the sum as -2 (factor 1) or -3 (factor 2) instead of rejecting the code. A 'Y' (34 under factor 1, 2·34-35 = 33 under factor 2) can then be traded for any such symbol without changing the sum mod 36. | "Y000002" is generated and valid; "a000002" is also accepted. "000001Y" is generated and valid; "000001a" is also accepted. So the tests at src/test/index.test.ts:16-36, reading their `checkCode` (which `src/index.ts` does not export) as `isCodeValid`, fail exactly when the generated code has a 'Y' at the position they replace. | a symbol outside the alphabet makes the code invalid, so every single substitution of a valid code is rejected | high, not executed | Luhn.OutOfAlphabetSubstitutionUndetected, Luhn.OutOfAlphabetSubstitutionIff, Luhn.FindingInputsAccepted, Luhn.FirstSymbolCounterexample, Luhn.CheckSymbolCounterexample | Luhn.StrictSubstitutionDetected, ParticipantCodes.IsCodeValidStrict |
