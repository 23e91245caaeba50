/**
 * The Luhn mod N check-character scheme of participant codes, as specification
 * functions over code points, and what it guarantees.
 *
 * A code is six payload symbols followed by one check symbol. Generation sums
 * the payload right to left with factors 2, 1, 2, ...; validation sums all
 * seven symbols right to left with factors 1, 2, 1, ...; each product is
 * folded into base N by adding its two base-N digits.
 */
module Luhn {
  import opened JsNumber
  import opened Alphabet

  /** The factor after `f`: `(factor == 2) ? 1 : 2`. */
  function OtherFactor(f: int): int
  {
    if f == 2 then 1 else 2
  }

  /** The factor of the symbol `d` places left of the rightmost one, when the rightmost gets `f`. */
  function Factor(f: int, d: nat): int
  {
    if d % 2 == 0 then f else OtherFactor(f)
  }

  /** One symbol's contribution: `factor * codePoint`, its base-N digits summed with JavaScript arithmetic. */
  function Addend(factor: int, codePoint: int): int
  {
    var a := factor * codePoint;
    FloorDiv(a, N) + Rem(a, N)
  }

  /** The running sum over `cps`, taken right to left, where the rightmost code point gets factor `f`. */
  function Sum(cps: seq<int>, f: int): int
    decreases |cps|
  {
    if |cps| == 0 then 0
    else Sum(cps[..|cps| - 1], OtherFactor(f)) + Addend(f, cps[|cps| - 1])
  }

  /** `CODE_POINTS.indexOf` of every symbol of `s` (see `IndexOfIsCodePointOf`); -1 for a symbol outside the alphabet. */
  function CodePointsOf(s: string): seq<int>
  {
    seq(|s|, k requires 0 <= k < |s| => CodePointOf(s[k]))
  }

  /** The payload drawn by six (in general `|draws|`) random picks: one alphabet symbol per draw, in order. */
  function Payload(draws: seq<CodePoint>): (s: string)
    ensures |s| == |draws|
    decreases |draws|
  {
    if |draws| == 0 then ""
    else Payload(draws[..|draws| - 1]) + [CodePoints[draws[|draws| - 1]]]
  }

  /** The payload holds the symbol of each draw at the draw's position. */
  lemma {:induction false} PayloadAt(draws: seq<CodePoint>, k: nat)
    requires k < |draws|
    ensures Payload(draws)[k] == CodePoints[draws[k]]
    decreases |draws|
  {
    if k < |draws| - 1 {
      PayloadAt(draws[..|draws| - 1], k);
    }
  }

  /** Looking the payload's symbols up again gives back the draws, and every symbol is in the alphabet. */
  lemma PayloadLookup(draws: seq<CodePoint>)
    ensures CodePointsOf(Payload(draws)) == draws
    ensures forall k :: 0 <= k < |draws| ==> InAlphabet(Payload(draws)[k])
  {
    forall k | 0 <= k < |draws|
      ensures CodePointsOf(Payload(draws))[k] == draws[k]
      ensures InAlphabet(Payload(draws)[k])
    {
      PayloadAt(draws, k);
      CodePointOfSymbol(draws[k]);
    }
  }

  /** The check code point for a payload: the one value in 0..N-1 that completes its sum to a multiple of N. */
  function CheckCodePoint(payload: seq<int>): (r: int)
    ensures 0 <= r < N
    ensures (Sum(payload, 2) + r) % N == 0
  {
    var remainder := Rem(Sum(payload, 2), N);
    Rem(N - remainder, N)
  }

  /** The code `generateCode` returns for the given random draws: their symbols, then the check symbol. */
  function Generated(draws: seq<CodePoint>): string
    requires |draws| == 6
  {
    Payload(draws + [CheckCodePoint(draws)])
  }

  /** What `isCodeValid` accepts: seven symbols whose JavaScript sum leaves remainder 0. */
  predicate Valid(code: string)
  {
    |code| == 7 && Rem(Sum(CodePointsOf(code), 1), N) == 0
  }

  /** The validity the scheme intends: `Valid` and, in addition, every symbol in the alphabet. */
  predicate ValidStrict(code: string)
  {
    Valid(code) && forall k :: 0 <= k < |code| ==> InAlphabet(code[k])
  }

  // ---------------------------------------------------------------- addends

  /** For an alphabet code point the fold is c under factor 1, and 2c or 2c - 35 under factor 2. */
  lemma AddendInAlphabet(f: int, c: CodePoint)
    requires f == 1 || f == 2
    ensures Addend(f, c) == if f == 1 || c < 18 then f * c else f * c - 35
    ensures 0 <= Addend(f, c) < 36
  {
  }

  /** `indexOf` gives -1 outside the alphabet, which folds to -2 under factor 1 and -3 under factor 2. */
  lemma AddendOutOfAlphabet()
    ensures Addend(1, -1) == -2
    ensures Addend(2, -1) == -3
  {
  }

  /** Under either factor, distinct alphabet code points give distinct addends, both in 0..35. */
  lemma AddendInjective(f: int, u: CodePoint, v: CodePoint)
    requires f == 1 || f == 2
    requires u != v
    ensures Addend(f, u) != Addend(f, v)
    ensures 0 <= Addend(f, u) < 36 && 0 <= Addend(f, v) < 36
  {
    AddendInAlphabet(f, u);
    AddendInAlphabet(f, v);
    var a, b := Addend(f, u), Addend(f, v);
    if f == 1 {
      assert a == u && b == v;
    } else {
      // doubling keeps 0..17 even and sends 18..35 to odd values
      assert a == (if u < 18 then 2 * u else 2 * u - 35);
      assert b == (if v < 18 then 2 * v else 2 * v - 35);
    }
  }

  /** Trading one addend in 0..35 for a different one moves a multiple of 36 off the multiples. */
  lemma ShiftBreaksMultiple(s: int, a: int, b: int)
    requires s % 36 == 0
    requires 0 <= a < 36 && 0 <= b < 36 && a != b
    ensures (s - a + b) % 36 != 0
  {
  }

  // ---------------------------------------------------------------- sums

  lemma FactorNext(f: int, d: nat)
    requires f == 1 || f == 2
    ensures Factor(OtherFactor(f), d) == Factor(f, d + 1)
    ensures Factor(f, d) == 1 || Factor(f, d) == 2
  {
  }

  /** Moving one symbol to the left swaps the factor, which stays 1 or 2. */
  lemma FactorAlternates(f: int, d: nat)
    requires f == 1 || f == 2
    ensures Factor(f, d + 1) == OtherFactor(Factor(f, d))
    ensures Factor(f, d) == 1 || Factor(f, d) == 2
  {
  }

  /** Over alphabet code points, every addend is in 0..35, so the sum is in 0..35 * |cps|. */
  lemma {:induction false} SumBounds(cps: seq<int>, f: int)
    requires f == 1 || f == 2
    requires forall k :: 0 <= k < |cps| ==> 0 <= cps[k] < 36
    ensures 0 <= Sum(cps, f) <= 35 * |cps|
    decreases |cps|
  {
    if |cps| > 0 {
      SumBounds(cps[..|cps| - 1], OtherFactor(f));
      AddendInAlphabet(f, cps[|cps| - 1]);
    }
  }

  /** Taking one more symbol on the left, as the right-to-left loop does. */
  lemma {:induction false} SumPrepend(x: int, cps: seq<int>, f: int)
    requires f == 1 || f == 2
    ensures Sum([x] + cps, f) == Addend(Factor(f, |cps|), x) + Sum(cps, f)
    decreases |cps|
  {
    if |cps| > 0 {
      var init := cps[..|cps| - 1];
      assert ([x] + cps)[..|cps|] == [x] + init;
      SumPrepend(x, init, OtherFactor(f));
      FactorNext(f, |init|);
    } else {
      assert ([x] + cps)[..0] == [];
    }
  }

  /** One step of the right-to-left loop: the suffix from `i` is the addend at `i` plus the suffix after it. */
  lemma SumStep(cps: seq<int>, i: nat, f: int)
    requires f == 1 || f == 2
    requires i < |cps|
    ensures Sum(cps[i..], f) == Addend(Factor(f, |cps| - 1 - i), cps[i]) + Sum(cps[i + 1..], f)
  {
    assert cps[i..] == [cps[i]] + cps[i + 1..];
    SumPrepend(cps[i], cps[i + 1..], f);
  }

  /** Replacing the code point at `i` changes the sum by the difference of its two addends. */
  lemma {:induction false} SumUpdate(cps: seq<int>, i: nat, v: int, f: int)
    requires f == 1 || f == 2
    requires i < |cps|
    ensures Sum(cps[i := v], f)
         == Sum(cps, f) - Addend(Factor(f, |cps| - 1 - i), cps[i]) + Addend(Factor(f, |cps| - 1 - i), v)
    decreases |cps|
  {
    var last := |cps| - 1;
    if i == last {
      assert cps[i := v][..last] == cps[..last];
    } else {
      assert cps[i := v][..last] == cps[..last][i := v];
      SumUpdate(cps[..last], i, v, OtherFactor(f));
      FactorNext(f, last - 1 - i);
    }
  }

  lemma CodePointsOfUpdate(s: string, i: nat, c: char)
    requires i < |s|
    ensures CodePointsOf(s[i := c]) == CodePointsOf(s)[i := CodePointOf(c)]
  {
  }

  // ---------------------------------------------------------------- validity

  /** On seven symbols, validity is exactly divisibility of the mathematical sum by N (JavaScript's -0 included). */
  lemma ValidIffDivisible(code: string)
    requires |code| == 7
    ensures Valid(code) <==> Sum(CodePointsOf(code), 1) % N == 0
  {
    RemZeroIffMultiple(Sum(CodePointsOf(code), 1), N);
  }

  /** Over an all-alphabet code the validator's sum lies in 0..7 * 35. */
  lemma ValidSumBounds(code: string)
    requires forall k :: 0 <= k < |code| ==> InAlphabet(code[k])
    ensures 0 <= Sum(CodePointsOf(code), 1) <= 35 * |code|
  {
    SumBounds(CodePointsOf(code), 1);
  }

  lemma DivisibleIsValid(code: string)
    requires |code| == 7 && Sum(CodePointsOf(code), 1) % 36 == 0
    ensures Valid(code)
  {
    ValidIffDivisible(code);
  }

  /** Wrong lengths are rejected, as for the inputs the test suite tries. */
  lemma LengthRejected(code: string)
    requires |code| != 7
    ensures !Valid(code)
  {
  }

  /** A generated code is seven alphabet symbols: the payload, then the check symbol. */
  lemma GeneratedShape(draws: seq<CodePoint>)
    requires |draws| == 6
    ensures |Generated(draws)| == 7
    ensures Generated(draws)[..6] == Payload(draws)
    ensures forall k :: 0 <= k < 7 ==> InAlphabet(Generated(draws)[k])
    ensures CodePointsOf(Generated(draws)) == draws + [CheckCodePoint(draws)]
  {
    var cps := draws + [CheckCodePoint(draws)];
    assert cps[..6] == draws;
    PayloadLookup(cps);
  }

  /** Soundness: every generated code passes the validator, and the strict one too. */
  lemma GeneratedIsValid(draws: seq<CodePoint>)
    requires |draws| == 6
    ensures Valid(Generated(draws))
    ensures ValidStrict(Generated(draws))
  {
    GeneratedShape(draws);
    var check := CheckCodePoint(draws);
    var cps := draws + [check];
    assert cps[..6] == draws;
    AddendInAlphabet(1, check);
    assert Sum(cps, 1) == Sum(draws, 2) + check;
    ValidIffDivisible(Generated(draws));
  }

  /** On code points: replacing an alphabet code point by a different one moves a multiple of N off the multiples. */
  lemma UpdateDetected(cps: seq<int>, i: nat, v: CodePoint)
    requires i < |cps| && 0 <= cps[i] < 36 && cps[i] != v
    requires Sum(cps, 1) % 36 == 0
    ensures Sum(cps[i := v], 1) % 36 != 0
  {
    var f := Factor(1, |cps| - 1 - i);
    FactorNext(1, |cps| - 1 - i);
    SumUpdate(cps, i, v, 1);
    AddendInjective(f, cps[i], v);
    ShiftBreaksMultiple(Sum(cps, 1), Addend(f, cps[i]), Addend(f, v));
  }

  /** Replacing one symbol of a valid all-alphabet code by a different alphabet symbol is always detected. */
  lemma SubstitutionDetected(code: string, i: nat, c: char)
    requires ValidStrict(code)
    requires i < |code|
    requires InAlphabet(c) && c != code[i]
    ensures !Valid(code[i := c])
  {
    var cps := CodePointsOf(code);
    assert 0 <= cps[i] && 0 <= CodePointOf(c);
    CodePointsOfUpdate(code, i, c);
    ValidIffDivisible(code);
    UpdateDetected(cps, i, CodePointOf(c));
    ValidIffDivisible(code[i := c]);
  }

  /** Single-substitution detection for generated codes, at every position including the check symbol. */
  lemma GeneratedSubstitutionDetected(draws: seq<CodePoint>, i: nat, c: char)
    requires |draws| == 6
    requires i < 7
    requires InAlphabet(c) && c != Generated(draws)[i]
    ensures !Valid(Generated(draws)[i := c])
  {
    GeneratedIsValid(draws);
    SubstitutionDetected(Generated(draws), i, c);
  }

  // ---------------------------------------------------------------- out-of-alphabet symbols

  /**
   * As written, the validator sums out-of-alphabet symbols instead of rejecting them:
   * a 'Y' (code point 34) anywhere in a valid code can be replaced by any symbol outside
   * the alphabet, lower-case 'a' for one, and the code still validates.
   */
  lemma OutOfAlphabetSubstitutionUndetected(code: string, i: nat, c: char)
    requires Valid(code)
    requires i < |code| && code[i] == 'Y'
    requires !InAlphabet(c)
    ensures Valid(code[i := c])
  {
    var cps := CodePointsOf(code);
    assert cps[i] == 34;
    assert Sum(cps, 1) % 36 == 0 by { ValidIffDivisible(code); }
    assert CodePointsOf(code[i := c]) == cps[i := -1] by { CodePointsOfUpdate(code, i, c); }
    UpdateToMinusOneUndetected(cps, i);
    DivisibleIsValid(code[i := c]);
  }

  /** On code points: trading a 34 for the -1 of a failed lookup lowers the sum by exactly 36. */
  lemma UpdateToMinusOneUndetected(cps: seq<int>, i: nat)
    requires i < |cps| && cps[i] == 34
    ensures Sum(cps[i := -1], 1) == Sum(cps, 1) - 36
    ensures Sum(cps, 1) % 36 == 0 ==> Sum(cps[i := -1], 1) % 36 == 0
  {
    var f := Factor(1, |cps| - 1 - i);
    FactorNext(1, |cps| - 1 - i);
    SumUpdate(cps, i, -1, 1);
    AddendInAlphabet(f, 34);
    AddendOutOfAlphabet();
  }

  /** On code points: trading any alphabet code point other than 34 for -1 moves a multiple of 36 off the multiples. */
  lemma UpdateToMinusOneDetected(cps: seq<int>, i: nat)
    requires i < |cps| && 0 <= cps[i] < 36 && cps[i] != 34
    requires Sum(cps, 1) % 36 == 0
    ensures Sum(cps[i := -1], 1) % 36 != 0
  {
    var f := Factor(1, |cps| - 1 - i);
    FactorNext(1, |cps| - 1 - i);
    SumUpdate(cps, i, -1, 1);
    AddendInAlphabet(f, cps[i]);
    AddendOutOfAlphabet();
    var a, b := Addend(f, cps[i]), Addend(f, -1);
    // the sum drops by a - b, which lies strictly between 0 and 72 and is not 36
    assert a - b != 36 && 0 < a - b < 72;
  }

  /** Replacing an alphabet symbol other than 'Y' of a valid code by a symbol outside the alphabet is always detected. */
  lemma OutOfAlphabetSubstitutionDetected(code: string, i: nat, c: char)
    requires Valid(code)
    requires i < |code| && InAlphabet(code[i]) && code[i] != 'Y'
    requires !InAlphabet(c)
    ensures !Valid(code[i := c])
  {
    var cps := CodePointsOf(code);
    assert 0 <= cps[i] && cps[i] != 34;
    assert Sum(cps, 1) % 36 == 0 by { ValidIffDivisible(code); }
    assert CodePointsOf(code[i := c]) == cps[i := -1] by { CodePointsOfUpdate(code, i, c); }
    UpdateToMinusOneDetected(cps, i);
    ValidIffDivisible(code[i := c]);
  }

  /**
   * Exactly when a single out-of-alphabet substitution slips through: in a valid code, trading an
   * alphabet symbol for a symbol outside the alphabet keeps the code valid if and only if that symbol is 'Y'.
   */
  lemma OutOfAlphabetSubstitutionIff(code: string, i: nat, c: char)
    requires Valid(code)
    requires i < |code| && InAlphabet(code[i])
    requires !InAlphabet(c)
    ensures Valid(code[i := c]) <==> code[i] == 'Y'
  {
    if code[i] == 'Y' {
      OutOfAlphabetSubstitutionUndetected(code, i, c);
    } else {
      OutOfAlphabetSubstitutionDetected(code, i, c);
    }
  }

  /** A run of zero code points sums to zero under any factors. */
  lemma {:induction false} SumOfZeros(cps: seq<int>, f: int)
    requires forall k :: 0 <= k < |cps| ==> cps[k] == 0
    ensures Sum(cps, f) == 0
    decreases |cps|
  {
    if |cps| > 0 {
      SumOfZeros(cps[..|cps| - 1], OtherFactor(f));
    }
  }

  /** The sum of a payload that is all zeros but for one code point. */
  lemma SumOfOneHot(i: nat, v: CodePoint)
    requires i < 6
    ensures Sum([0, 0, 0, 0, 0, 0][i := v], 2) == Addend(Factor(2, 5 - i), v)
  {
    SumOfZeros([0, 0, 0, 0, 0, 0], 2);
    SumUpdate([0, 0, 0, 0, 0, 0], i, v, 2);
    FactorNext(2, 5 - i);
    AddendInAlphabet(Factor(2, 5 - i), 0);
  }

  /** A worked example of generation: the payload "000001" gets the check symbol 'Y'. */
  lemma GeneratedExample()
    ensures Generated([0, 0, 0, 0, 0, 1]) == "000001Y"
  {
    var draws: seq<CodePoint> := [0, 0, 0, 0, 0, 1];
    assert CheckCodePoint(draws) == 34 by {
      assert draws == [0, 0, 0, 0, 0, 0][5 := 1];
      SumOfOneHot(5, 1);
      AddendInAlphabet(2, 1);
    }
    forall k | 0 <= k < 6
      ensures Payload(draws)[k] == "000001"[k]
    {
      PayloadAt(draws, k);
      CodePointOfSymbol(draws[k]);
    }
    CodePointOfSymbol(34);
  }

  /**
   * A generated code whose first symbol is 'Y' (payloads drawing 34 first, "Y000002" among them)
   * still validates with that symbol replaced by 'a', as the test at src/test/index.test.ts:16-25 does.
   */
  lemma FirstSymbolCounterexample(draws: seq<CodePoint>)
    requires |draws| == 6 && draws[0] == 34
    ensures Generated(draws)[0] == 'Y'
    ensures Valid("a" + Generated(draws)[1..])
  {
    var g := Generated(draws);
    assert |g| == 7 && Valid(g) by { GeneratedIsValid(draws); }
    assert g[0] == 'Y' by {
      PayloadAt(draws, 0);
      CodePointOfSymbol(34);
    }
    assert "a" + g[1..] == g[0 := 'a'];
    OutOfAlphabetSubstitutionUndetected(g, 0, 'a');
  }

  /**
   * A generated code whose check symbol is 'Y' ("000001Y" of `GeneratedExample` among them) still validates with the
   * check symbol replaced by 'a', as the test at src/test/index.test.ts:27-36 does.
   */
  lemma CheckSymbolCounterexample(draws: seq<CodePoint>)
    requires |draws| == 6 && Generated(draws)[6] == 'Y'
    ensures Valid(Generated(draws)[..6] + "a")
  {
    var g := Generated(draws);
    assert |g| == 7 && Valid(g) by { GeneratedIsValid(draws); }
    assert g[..6] + "a" == g[6 := 'a'];
    OutOfAlphabetSubstitutionUndetected(g, 6, 'a');
  }

  /** A second worked example: the payload "Y00000" gets the check symbol '2'. */
  lemma GeneratedExampleY()
    ensures Generated([34, 0, 0, 0, 0, 0]) == "Y000002"
  {
    var draws: seq<CodePoint> := [34, 0, 0, 0, 0, 0];
    assert CheckCodePoint(draws) == 2 by {
      assert draws == [0, 0, 0, 0, 0, 0][0 := 34];
      SumOfOneHot(0, 34);
      AddendInAlphabet(1, 34);
    }
    var cps := draws + [2];
    forall k | 0 <= k < 7
      ensures Payload(cps)[k] == "Y000002"[k]
    {
      PayloadAt(cps, k);
      CodePointOfSymbol(cps[k]);
    }
  }

  /** The two inputs of the finding: both generated codes, with one 'Y' replaced by 'a', are accepted. */
  lemma FindingInputsAccepted()
    ensures Valid("a000002")
    ensures Valid("000001a")
  {
    GeneratedExampleY();
    GeneratedIsValid([34, 0, 0, 0, 0, 0]);
    assert "Y000002"[0 := 'a'] == "a000002";
    OutOfAlphabetSubstitutionUndetected("Y000002", 0, 'a');
    GeneratedExample();
    GeneratedIsValid([0, 0, 0, 0, 0, 1]);
    assert "000001Y"[6 := 'a'] == "000001a";
    OutOfAlphabetSubstitutionUndetected("000001Y", 6, 'a');
  }

  /** With out-of-alphabet symbols rejected, every single substitution whatsoever is detected. */
  lemma StrictSubstitutionDetected(code: string, i: nat, c: char)
    requires ValidStrict(code)
    requires i < |code| && c != code[i]
    ensures !ValidStrict(code[i := c])
  {
    if InAlphabet(c) {
      SubstitutionDetected(code, i, c);
    } else {
      assert !InAlphabet(code[i := c][i]);
    }
  }
}
