/**
 * The per-character cipher of the two servers, `encrypt_char` and
 * `decrypt_char`, and the text transforms their `handle_client` loops compute.
 */
module Cipher {
  import opened Alphabet

  /**
   * C's `a % MOD` on `int`: the quotient truncates toward zero, so a nonzero
   * remainder takes the sign of the dividend (Dafny's `%` never goes negative).
   */
  function CMod(a: int): (r: int)
    ensures -MOD < r < MOD
    ensures a >= 0 ==> r == a % MOD
  {
    if a >= 0 then a % MOD else -((-a) % MOD)
  }

  /**
   * For a negative dividend C's remainder is zero or the Euclidean one minus
   * the modulus, never positive.
   */
  lemma CModNegative(a: int)
    requires a < 0
    ensures CMod(a) <= 0
    ensures CMod(a) == 0 || CMod(a) == a % MOD - MOD
  {
  }

  /**
   * `encrypt_char`: add the values, take C's `% MOD` and map back. On two
   * symbols the sum is non-negative and the result is the symbol of the true
   * residue; the function is total, as the C code is, and on other characters
   * yields a space or a character in ('A' - 27, 'A' + 27).
   */
  function EncryptChar(plain: char, key: char): (r: char)
    ensures InAlphabet(plain) && InAlphabet(key) ==>
      InAlphabet(r) && Value(r) == (Value(plain) + Value(key)) % MOD
    ensures r == ' ' || 'A' as int - MOD < r as int < 'A' as int + MOD
  {
    Symbol(CMod(Value(plain) + Value(key)))
  }

  /**
   * `decrypt_char`: subtract the key's value, offset by 27 first. On two
   * symbols the operand lies in [1, 53], so C's `%` agrees with the
   * mathematical one and the result is the symbol of the true residue of the
   * difference.
   */
  function DecryptChar(cipher: char, key: char): (r: char)
    ensures InAlphabet(cipher) && InAlphabet(key) ==>
      InAlphabet(r) && Value(r) == (Value(cipher) - Value(key)) % MOD
    ensures r == ' ' || 'A' as int - MOD < r as int < 'A' as int + MOD
  {
    Symbol(CMod(Value(cipher) - Value(key) + MOD))
  }

  /** One subtraction of the modulus brings a value in [27, 53] into range. */
  lemma ModOnce(x: int)
    requires MOD <= x < 2 * MOD
    ensures x % MOD == x - MOD
  {
    assert x == MOD * 1 + (x - MOD);
  }

  /** Subtracting a value after adding it, modulo 27. */
  lemma AddThenSubtract(vp: int, vk: int, vc: int, vd: int)
    requires 0 <= vp < MOD && 0 <= vk < MOD
    requires vc == (vp + vk) % MOD && vd == (vc - vk) % MOD
    ensures vd == vp
  {
    if vp + vk >= MOD {
      ModOnce(vp + vk);
    }
  }

  /** Adding a value after subtracting it, modulo 27. */
  lemma SubtractThenAdd(vc: int, vk: int, vp: int, ve: int)
    requires 0 <= vc < MOD && 0 <= vk < MOD
    requires vp == (vc - vk) % MOD && ve == (vp + vk) % MOD
    ensures ve == vc
  {
    if vc < vk {
      ModOnce(vc - vk + 2 * MOD);
      assert (vc - vk) % MOD == vc - vk + MOD;
    }
  }

  /** Decrypting with the same key undoes encrypting. */
  lemma DecryptEncrypt(p: char, k: char)
    requires InAlphabet(p) && InAlphabet(k)
    ensures DecryptChar(EncryptChar(p, k), k) == p
  {
    var c := EncryptChar(p, k);
    assert InAlphabet(c) && Value(c) == (Value(p) + Value(k)) % MOD;
    var d := DecryptChar(c, k);
    assert InAlphabet(d) && Value(d) == (Value(c) - Value(k)) % MOD;
    AddThenSubtract(Value(p), Value(k), Value(c), Value(d));
    ValueInjective(d, p);
  }

  /** Encrypting with the same key undoes decrypting. */
  lemma EncryptDecrypt(c: char, k: char)
    requires InAlphabet(c) && InAlphabet(k)
    ensures EncryptChar(DecryptChar(c, k), k) == c
  {
    var p := DecryptChar(c, k);
    assert InAlphabet(p) && Value(p) == (Value(c) - Value(k)) % MOD;
    var e := EncryptChar(p, k);
    assert InAlphabet(e) && Value(e) == (Value(p) + Value(k)) % MOD;
    SubtractThenAdd(Value(c), Value(k), Value(p), Value(e));
    ValueInjective(e, c);
  }

  /** Worked values: 0+0 = 0, 25+1 = 26 (space), 26+26 = 52 = 25 (mod 27), 0-1+27 = 26. */
  lemma Vectors()
    ensures EncryptChar('A', 'A') == 'A'
    ensures EncryptChar('Z', 'B') == ' '
    ensures EncryptChar(' ', ' ') == 'Z'
    ensures DecryptChar('A', 'B') == ' '
  {
    assert Value('A') == 0 && Value('B') == 1 && Value('Z') == 25 && Value(' ') == 26;
    assert CMod(0) == 0 && CMod(26) == 26 && CMod(52) == 25;
    assert Symbol(0) == 'A' && Symbol(25) == 'Z' && Symbol(26) == ' ';
    assert DecryptChar('A', 'B') == Symbol(CMod(26));
  }

  /**
   * Characters outside the alphabet: 'a' has value 32, so 32 % 27 = 5 gives
   * 'F'; a newline has value -55, and with itself as key the offset
   * difference is 27, giving 'A'; against 'A' it is -28, whose C remainder is
   * -1, giving '@' where a non-negative remainder would give a space.
   */
  lemma OutsideVectors()
    ensures EncryptChar('a', 'A') == 'F'
    ensures DecryptChar('\n', '\n') == 'A'
    ensures DecryptChar('\n', 'A') == '@'
  {
    assert Value('a') == 32 && Value('A') == 0 && Value('\n') == -55;
    assert CMod(32) == 5 && CMod(27) == 0 && CMod(-28) == -1;
    assert Symbol(5) == 'F' && Symbol(0) == 'A' && Symbol(-1) == '@';
  }

  /**
   * A text and a key the cipher can be applied to: the key is at least as long
   * as the text, and the text and the first |text| key characters are symbols.
   * Key characters beyond that are never read.
   */
  predicate Keyed(text: seq<char>, key: seq<char>) {
    |key| >= |text| && IsText(text) && forall i :: 0 <= i < |text| ==> InAlphabet(key[i])
  }

  /**
   * The ciphertext `handle_client` of the encrypting server builds: position
   * i from text[i] and key[i]. A keyed text gives a text.
   */
  function EncryptText(text: seq<char>, key: seq<char>): (r: seq<char>)
    requires |key| >= |text|
    ensures |r| == |text|
    ensures Keyed(text, key) ==> IsText(r)
  {
    seq(|text|, i requires 0 <= i < |text| => EncryptChar(text[i], key[i]))
  }

  /** The plaintext `handle_client` of the decrypting server builds. */
  function DecryptText(text: seq<char>, key: seq<char>): (r: seq<char>)
    requires |key| >= |text|
    ensures |r| == |text|
    ensures Keyed(text, key) ==> IsText(r)
  {
    seq(|text|, i requires 0 <= i < |text| => DecryptChar(text[i], key[i]))
  }

  /** Only the first |text| key characters matter: keys that agree there give the same ciphertext. */
  lemma EncryptUsesKeyPrefix(text: seq<char>, k1: seq<char>, k2: seq<char>)
    requires |k1| >= |text| && |k2| >= |text|
    requires k1[..|text|] == k2[..|text|]
    ensures EncryptText(text, k1) == EncryptText(text, k2)
  {
    forall i | 0 <= i < |text|
      ensures EncryptText(text, k1)[i] == EncryptText(text, k2)[i]
    {
      assert k1[i] == k1[..|text|][i];
    }
  }

  lemma DecryptUsesKeyPrefix(text: seq<char>, k1: seq<char>, k2: seq<char>)
    requires |k1| >= |text| && |k2| >= |text|
    requires k1[..|text|] == k2[..|text|]
    ensures DecryptText(text, k1) == DecryptText(text, k2)
  {
    forall i | 0 <= i < |text|
      ensures DecryptText(text, k1)[i] == DecryptText(text, k2)[i]
    {
      assert k1[i] == k1[..|text|][i];
    }
  }

  /** Extending text and key by one character each adds one cipher call at the end. */
  lemma DecryptTextExtend(text: seq<char>, key: seq<char>, x: char, y: char)
    requires |key| >= |text|
    ensures DecryptText(text + [x], key + [y]) == DecryptText(text, key) + [DecryptChar(x, (key + [y])[|text|])]
  {
    var t, k := text + [x], key + [y];
    assert forall i :: 0 <= i < |text| ==> t[i] == text[i] && k[i] == key[i];
  }

  /** Text-level round trip: the decrypting server recovers what the encrypting server produced from. */
  lemma DecryptEncryptText(text: seq<char>, key: seq<char>)
    requires Keyed(text, key)
    ensures Keyed(EncryptText(text, key), key)
    ensures DecryptText(EncryptText(text, key), key) == text
  {
    var c := EncryptText(text, key);
    forall i | 0 <= i < |text|
      ensures DecryptText(c, key)[i] == text[i]
    {
      DecryptEncrypt(text[i], key[i]);
    }
  }

  lemma EncryptDecryptText(text: seq<char>, key: seq<char>)
    requires Keyed(text, key)
    ensures Keyed(DecryptText(text, key), key)
    ensures EncryptText(DecryptText(text, key), key) == text
  {
    var p := DecryptText(text, key);
    forall i | 0 <= i < |text|
      ensures EncryptText(p, key)[i] == text[i]
    {
      EncryptDecrypt(text[i], key[i]);
    }
  }
}
