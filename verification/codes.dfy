/**
 * The participant-code operations of src/index.ts, as the loops they are there:
 * each method is proved against the specification functions of `Luhn`.
 * `Math.random()` is replaced by a sequence of draws in 0..35, one per symbol,
 * and the database check `isCodeExists` by a set of already issued codes.
 */
module ParticipantCodes {
  import opened JsNumber
  import opened Alphabet
  import opened Luhn

  /**
   * `generateHumanReadableCode(length)`: one alphabet symbol per random draw.
   * Pushing one-symbol strings and joining them with '' is concatenation.
   */
  method GenerateHumanReadableCode(length: nat, draws: seq<CodePoint>) returns (code: string)
    requires |draws| == length
    ensures code == Payload(draws)
  {
    code := "";
    for i := 0 to length
      invariant code == Payload(draws[..i])
    {
      code := code + CharAt(CodePoints, draws[i]);
      assert draws[..i + 1][..i] == draws[..i];
    }
    assert draws[..length] == draws;
  }

  /**
   * `generateCode()`: a six-symbol payload, then the check symbol found by summing the
   * payload right to left with factors 2, 1, 2, ...
   */
  method GenerateCode(draws: seq<CodePoint>) returns (code: string)
    requires |draws| == 6
    ensures code == Generated(draws)
  {
    var payload := GenerateHumanReadableCode(6, draws);

    var factor := 2;
    var sum := 0;
    var n := |CodePoints|;
    assert n == N by { RadixIsAlphabetSize(); }

    var i := |payload| - 1;
    while i >= 0
      invariant -1 <= i < |payload|
      invariant factor == Factor(2, |payload| - 1 - i)
      invariant sum == Sum(draws[i + 1..], 2)
    {
      ghost var f := factor;
      var codePoint := IndexOf(CodePoints, payload[i]);
      assert codePoint == draws[i] by {
        IndexOfIsCodePointOf(payload[i]);
        PayloadLookup(draws);
        assert CodePointsOf(payload)[i] == CodePointOf(payload[i]);
      }
      var addend := factor * codePoint;

      factor := if factor == 2 then 1 else 2;
      assert factor == Factor(2, |payload| - i) by { FactorAlternates(2, |payload| - 1 - i); }

      addend := FloorDiv(addend, n) + Rem(addend, n);
      sum := sum + addend;
      assert sum == Sum(draws[i..], 2) by {
        assert addend == Addend(f, draws[i]);
        SumStep(draws, i, 2);
      }
      i := i - 1;
    }
    assert i == -1;
    assert sum == Sum(draws, 2) by { assert draws[0..] == draws; }

    var remainder := Rem(sum, n);
    var checkCodePoint := Rem(n - remainder, n);
    assert checkCodePoint == CheckCodePoint(draws);
    var checkCharacter := CharAt(CodePoints, checkCodePoint);
    code := payload + checkCharacter;
    assert code == Generated(draws) by {
      assert (draws + [checkCodePoint])[..6] == draws;
    }
  }

  /**
   * `isCodeValid(code)` as written: seven symbols summed right to left with factors
   * 1, 2, 1, ...; a symbol outside the alphabet takes part with code point -1.
   */
  method IsCodeValid(code: string) returns (valid: bool)
    ensures valid == Valid(code)
    ensures |code| != 7 ==> !valid
  {
    if |code| != 7 {
      return false;
    }

    var factor := 1;
    var sum := 0;
    var n := |CodePoints|;
    assert n == N by { RadixIsAlphabetSize(); }
    ghost var cps := CodePointsOf(code);

    var i := |code| - 1;
    while i >= 0
      invariant -1 <= i < |code|
      invariant factor == Factor(1, |code| - 1 - i)
      invariant sum == Sum(cps[i + 1..], 1)
    {
      ghost var f := factor;
      var codePoint := IndexOf(CodePoints, code[i]);
      assert codePoint == cps[i] by { IndexOfIsCodePointOf(code[i]); }
      var addend := factor * codePoint;

      factor := if factor == 2 then 1 else 2;
      assert factor == Factor(1, |code| - i) by { FactorAlternates(1, |code| - 1 - i); }

      addend := FloorDiv(addend, n) + Rem(addend, n);
      sum := sum + addend;
      assert sum == Sum(cps[i..], 1) by {
        assert addend == Addend(f, cps[i]);
        SumStep(cps, i, 1);
      }
      i := i - 1;
    }
    assert i == -1;
    assert sum == Sum(cps, 1) by { assert cps[0..] == cps; }

    var remainder := Rem(sum, n);
    valid := remainder == 0;
  }

  /**
   * The validator as the check scheme intends it: like `IsCodeValid`, but a symbol
   * outside the alphabet makes the code invalid at once.
   */
  method IsCodeValidStrict(code: string) returns (valid: bool)
    ensures valid == ValidStrict(code)
  {
    if |code| != 7 {
      return false;
    }

    var factor := 1;
    var sum := 0;
    var n := |CodePoints|;
    assert n == N by { RadixIsAlphabetSize(); }
    ghost var cps := CodePointsOf(code);

    var i := |code| - 1;
    while i >= 0
      invariant -1 <= i < |code|
      invariant factor == Factor(1, |code| - 1 - i)
      invariant sum == Sum(cps[i + 1..], 1)
      invariant forall k {:trigger InAlphabet(code[k])} :: i < k < |code| ==> InAlphabet(code[k])
    {
      ghost var f := factor;
      var codePoint := IndexOf(CodePoints, code[i]);
      assert codePoint == cps[i] by { IndexOfIsCodePointOf(code[i]); }
      if codePoint == -1 {
        assert !InAlphabet(code[i]);
        return false;
      }
      var addend := factor * codePoint;

      factor := if factor == 2 then 1 else 2;
      assert factor == Factor(1, |code| - i) by { FactorAlternates(1, |code| - 1 - i); }

      addend := FloorDiv(addend, n) + Rem(addend, n);
      sum := sum + addend;
      assert sum == Sum(cps[i..], 1) by {
        assert addend == Addend(f, cps[i]);
        SumStep(cps, i, 1);
      }
      i := i - 1;
    }
    assert i == -1;
    assert sum == Sum(cps, 1) by { assert cps[0..] == cps; }

    var remainder := Rem(sum, n);
    valid := remainder == 0;
  }

  /**
   * The registration handler's `do { code = generateCode() } while (isCodeExists(code))`.
   * `issued` holds the codes already stored; `supply[k]` is the draws of attempt k. The
   * loop ends only if some attempt yields an unissued code, which the caller guarantees.
   * Returns the code and the index of the attempt that produced it.
   */
  method IssueCode(issued: set<string>, supply: seq<seq<CodePoint>>) returns (code: string, attempt: nat)
    requires forall k :: 0 <= k < |supply| ==> |supply[k]| == 6
    requires exists k :: 0 <= k < |supply| && Generated(supply[k]) !in issued
    ensures attempt < |supply| && code == Generated(supply[attempt])
    ensures code !in issued
    ensures ValidStrict(code)
    ensures forall k :: 0 <= k < attempt ==> Generated(supply[k]) in issued
  {
    ghost var unissued :| 0 <= unissued < |supply| && Generated(supply[unissued]) !in issued;
    attempt := 0;
    code := GenerateCode(supply[attempt]);
    while code in issued
      invariant attempt <= unissued
      invariant code == Generated(supply[attempt])
      invariant forall k :: 0 <= k < attempt ==> Generated(supply[k]) in issued
      decreases unissued - attempt
    {
      attempt := attempt + 1;
      code := GenerateCode(supply[attempt]);
    }
    assert ValidStrict(code) by { GeneratedIsValid(supply[attempt]); }
  }
}
