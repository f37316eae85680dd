/**
 * The 27-symbol alphabet shared by both servers and checked by the encrypting
 * client: 'A'..'Z' stand for 0..25 and the space for 26.
 */
module Alphabet {
  /** Number of symbols, and the modulus of the cipher (`#define MOD 27`). */
  const MOD: int := 27

  /** The test `validate_text` applies to every character. */
  predicate InAlphabet(c: char) {
    'A' <= c <= 'Z' || c == ' '
  }

  /** Every character of `s` is a symbol (the empty string qualifies). */
  predicate IsText(s: seq<char>) {
    forall i :: 0 <= i < |s| ==> InAlphabet(s[i])
  }

  /**
   * `c == ' ' ? 26 : c - 'A'`: the value of a symbol, and the integer the
   * servers compute for any other character too.
   */
  function Value(c: char): (v: int)
    ensures InAlphabet(c) ==> 0 <= v < MOD
    ensures InAlphabet(c) ==> (v == 26 <==> c == ' ')
    ensures c != ' ' ==> v == c as int - 'A' as int
  {
    if c == ' ' then 26 else c as int - 'A' as int
  }

  /**
   * `v == 26 ? ' ' : v + 'A'` for a remainder of C's `% MOD`: the symbol of a
   * value in [0, 27), inverting `Value`; a negative remainder gives one of
   * the characters just below 'A'.
   */
  function Symbol(v: int): (c: char)
    requires -MOD < v < MOD
    ensures 0 <= v < MOD ==> InAlphabet(c) && Value(c) == v
    ensures v < 0 ==> 'A' as int - MOD < c as int < 'A' as int
  {
    if v == 26 then ' ' else (v + 'A' as int) as char
  }

  /** `Value` is one-to-one on the alphabet, so `Symbol` is its inverse on both sides. */
  lemma ValueInjective(a: char, b: char)
    requires InAlphabet(a) && InAlphabet(b)
    requires Value(a) == Value(b)
    ensures a == b
  {
    if a != ' ' && b != ' ' {
      assert a as int == b as int;
    }
  }

  lemma SymbolOfValue(c: char)
    requires InAlphabet(c)
    ensures Symbol(Value(c)) == c
  {
    ValueInjective(Symbol(Value(c)), c);
  }

  /** The mapping at its two ends, at the space, and at two characters outside the alphabet. */
  lemma MappingVectors()
    ensures Value('A') == 0 && Value('Z') == 25 && Value(' ') == 26
    ensures Value('a') == 32 && Value('\n') == -55
    ensures Symbol(0) == 'A' && Symbol(25) == 'Z' && Symbol(26) == ' '
  {
  }

  /** A text holds no character outside the alphabet, so none of the frame and line separators. */
  lemma TextExcludes(s: seq<char>, c: char)
    requires IsText(s) && !InAlphabet(c)
    ensures c !in s
  {
  }
}
