/**
 * The alphabet of participant codes (`CODE_POINTS`): the ten digits followed by
 * the twenty-six upper-case letters. A symbol's code point is its position here.
 */
module Alphabet {

  /**
   * `CODE_POINTS`, the literal "0123456789ABCDEFGHIJKLMNOPQRSTUVWXYZ" (`CodePointsSpelledOut` proves the two
   * equal). It is built from `Symbol` rather than written as the literal so that looking up the symbol
   * at a computed code point is one arithmetic step for the verifier, not a case split over 36 characters.
   */
  const CodePoints: string := SymbolsInOrder()

  /** The 36 symbols in code-point order. */
  function SymbolsInOrder(): string
  {
    seq(36, i requires 0 <= i < 36 => Symbol(i))
  }

  /** The radix of the check scheme, `CODE_POINTS.length`. */
  const N: int := 36

  lemma RadixIsAlphabetSize()
    ensures N == |CodePoints|
  {
  }

  /** A code point of an alphabet symbol; also what one random draw yields. */
  type CodePoint = i: int | 0 <= i < 36

  /** The symbol with code point `i`: a digit for 0..9, an upper-case letter for 10..35. */
  function Symbol(i: int): char
    requires 0 <= i < 36
  {
    if i < 10 then ('0' as int + i) as char else ('A' as int + i - 10) as char
  }

  lemma CodePointsSpelledOut()
    ensures CodePoints == "0123456789ABCDEFGHIJKLMNOPQRSTUVWXYZ"
  {
  }

  /**
   * The code point of `c` worked out from its character code: digits count from 0,
   * upper-case letters from 10, and anything else gets -1. `IndexOfIsCodePointOf`
   * shows this is exactly what `CODE_POINTS.indexOf(c)` returns.
   */
  function CodePointOf(c: char): (r: int)
    ensures -1 <= r < 36
    ensures 0 <= r ==> Symbol(r) == c
  {
    if '0' <= c <= '9' then c as int - '0' as int
    else if 'A' <= c <= 'Z' then c as int - 'A' as int + 10
    else -1
  }

  /** `c` is one of the 36 symbols; `InAlphabetIff` shows this is membership in `CodePoints`. */
  predicate InAlphabet(c: char)
  {
    '0' <= c <= '9' || 'A' <= c <= 'Z'
  }

  /** `s.indexOf(c)`: the position of an occurrence of `c`, or -1; `IndexOfFirst` shows it is the first. */
  function IndexOf(s: string, c: char): (r: int)
    ensures -1 <= r < |s|
    ensures 0 <= r ==> s[r] == c
  {
    if |s| == 0 then -1
    else if s[0] == c then 0
    else
      var r' := IndexOf(s[1..], c);
      if r' == -1 then -1 else r' + 1
  }

  /** `indexOf` finds the first occurrence, and gives -1 exactly when `c` does not occur. */
  lemma {:induction false} IndexOfFirst(s: string, c: char)
    ensures IndexOf(s, c) == -1 <==> c !in s
    ensures 0 <= IndexOf(s, c) ==> c !in s[..IndexOf(s, c)]
    decreases |s|
  {
    if |s| > 0 && s[0] != c {
      IndexOfFirst(s[1..], c);
      assert s == [s[0]] + s[1..];
      var r' := IndexOf(s[1..], c);
      if r' != -1 {
        assert s[..r' + 1] == [s[0]] + s[1..][..r'];
      }
    }
  }

  /** `s.charAt(i)`: a one-symbol string, or the empty string when `i` is out of range. */
  function CharAt(s: string, i: int): (r: string)
    ensures |r| == 1 <==> 0 <= i < |s|
    ensures |r| == 1 ==> r[0] == s[i]
    ensures |r| != 1 ==> r == ""
  {
    if 0 <= i < |s| then [s[i]] else ""
  }

  /** No symbol occurs twice in the alphabet. */
  lemma CodePointsDistinct()
    ensures forall i, j :: 0 <= i < j < |CodePoints| ==> CodePoints[i] != CodePoints[j]
  {
  }

  /** The symbol at code point `i` has code point `i`. */
  lemma CodePointOfSymbol(i: CodePoint)
    ensures CodePoints[i] == Symbol(i)
    ensures CodePointOf(CodePoints[i]) == i
  {
  }

  /** Membership in the alphabet, as the character ranges of `InAlphabet` and as the lookup's sign. */
  lemma InAlphabetIff(c: char)
    ensures InAlphabet(c) <==> c in CodePoints
    ensures InAlphabet(c) <==> 0 <= CodePointOf(c)
  {
    if InAlphabet(c) {
      CodePointOfSymbol(CodePointOf(c));
    }
  }

  /** `CODE_POINTS.indexOf(c)` is the code point of `c`: its position for a symbol, -1 for anything else. */
  lemma IndexOfIsCodePointOf(c: char)
    ensures IndexOf(CodePoints, c) == CodePointOf(c)
  {
    IndexOfFirst(CodePoints, c);
    InAlphabetIff(c);
    var r := IndexOf(CodePoints, c);
    if 0 <= r {
      CodePointOfSymbol(r);
    }
  }

  /** The symbol `Y`, code point 34, that out-of-alphabet symbols can stand in for. */
  lemma IndexOfY()
    ensures IndexOf(CodePoints, 'Y') == 34
  {
    IndexOfIsCodePointOf('Y');
  }
}
