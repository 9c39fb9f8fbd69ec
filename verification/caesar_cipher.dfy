/**
 * The shift cipher of the biometric-authentication demo (`CaesarCipher.kt`).
 *
 * Each UTF-16 code unit of the message is moved forward (encryption) or
 * backward (decryption) by the cipher's shift, modulo 2^16. There is no
 * alphabet: every code unit is shifted, surrogate halves included.
 */
module Cipher {
  import opened KotlinChars

  /** What `encryptMessage` returns for `plainText` under `shift`. */
  function Encrypted(plainText: Text, shift: Int32): (r: Text)
    ensures |r| == |plainText|
    ensures forall i :: 0 <= i < |plainText| ==> r[i] == (plainText[i] + shift) % CHAR_RANGE
  {
    if plainText == [] then []
    else Encrypted(plainText[..|plainText| - 1], shift) + [Plus(plainText[|plainText| - 1], shift)]
  }

  /** What `decryptMessage` returns for `cipher` under `shift`. */
  function Decrypted(cipher: Text, shift: Int32): (r: Text)
    ensures |r| == |cipher|
    ensures forall i :: 0 <= i < |cipher| ==> r[i] == (cipher[i] - shift) % CHAR_RANGE
  {
    if cipher == [] then []
    else Decrypted(cipher[..|cipher| - 1], shift) + [Minus(cipher[|cipher| - 1], shift)]
  }

  /** An immutable cipher object; its shift is fixed at construction. */
  class CaesarCipher {
    const cipherShift: Int32

    constructor (cipherShift: Int32)
      ensures this.cipherShift == cipherShift
    {
      this.cipherShift := cipherShift;
    }

    /** Appends each code unit of `plainText`, moved forward by the shift. */
    method EncryptMessage(plainText: Text) returns (cipher: Text)
      ensures cipher == Encrypted(plainText, cipherShift)
    {
      cipher := [];
      for i := 0 to |plainText|
        invariant cipher == Encrypted(plainText[..i], cipherShift)
      {
        assert plainText[..i + 1][..i] == plainText[..i];
        cipher := cipher + [Plus(plainText[i], cipherShift)];
      }
      assert plainText[..|plainText|] == plainText;
    }

    /** Appends each code unit of `cipher`, moved backward by the shift. */
    method DecryptMessage(cipher: Text) returns (plainText: Text)
      ensures plainText == Decrypted(cipher, cipherShift)
    {
      plainText := [];
      for i := 0 to |cipher|
        invariant plainText == Decrypted(cipher[..i], cipherShift)
      {
        assert cipher[..i + 1][..i] == cipher[..i];
        plainText := plainText + [Minus(cipher[i], cipherShift)];
      }
      assert cipher[..|cipher|] == cipher;
    }
  }

  /** Decryption undoes encryption, for every text and every `Int` shift. */
  lemma {:induction false} DecryptEncrypt(t: Text, shift: Int32)
    ensures Decrypted(Encrypted(t, shift), shift) == t
  {
    if t != [] {
      var init, last := t[..|t| - 1], t[|t| - 1];
      var e := Encrypted(t, shift);
      assert e == Encrypted(init, shift) + [Plus(last, shift)];
      assert e[..|e| - 1] == Encrypted(init, shift);
      DecryptEncrypt(init, shift);
      MinusUndoesPlus(last, shift);
      assert Decrypted(e, shift) == init + [last];
      assert init + [last] == t;
    }
  }

  /** Encryption undoes decryption, for every text and every `Int` shift. */
  lemma {:induction false} EncryptDecrypt(t: Text, shift: Int32)
    ensures Encrypted(Decrypted(t, shift), shift) == t
  {
    if t != [] {
      var init, last := t[..|t| - 1], t[|t| - 1];
      var d := Decrypted(t, shift);
      assert d == Decrypted(init, shift) + [Minus(last, shift)];
      assert d[..|d| - 1] == Decrypted(init, shift);
      EncryptDecrypt(init, shift);
      PlusUndoesMinus(last, shift);
      assert Encrypted(d, shift) == init + [last];
      assert init + [last] == t;
    }
  }

  /** Different messages never encrypt to the same cipher text. */
  lemma EncryptedInjective(t1: Text, t2: Text, shift: Int32)
    requires Encrypted(t1, shift) == Encrypted(t2, shift)
    ensures t1 == t2
  {
    DecryptEncrypt(t1, shift);
    DecryptEncrypt(t2, shift);
  }

  /** With shift 0 both directions return the message unchanged. */
  lemma ZeroShiftIsIdentity(t: Text)
    ensures Encrypted(t, 0) == t
    ensures Decrypted(t, 0) == t
  {
  }

  /** The empty string maps to the empty string in both directions. */
  lemma EmptyTextIsFixed(shift: Int32)
    ensures Encrypted([], shift) == []
    ensures Decrypted([], shift) == []
  {
  }

  /**
   * Encrypting with `shift` is decrypting with the Kotlin negation of `shift`
   * (which, for `Int.MIN_VALUE`, is `Int.MIN_VALUE` itself).
   */
  lemma EncryptIsDecryptNegated(t: Text, shift: Int32)
    ensures Encrypted(t, shift) == Decrypted(t, WrapInt(-(shift as int)))
  {
    var neg := WrapInt(-(shift as int));
    if shift == -0x8000_0000 {
      assert neg == shift;
      forall i | 0 <= i < |t|
        ensures Encrypted(t, shift)[i] == Decrypted(t, neg)[i]
      {
        var r := (t[i] + shift) % CHAR_RANGE;
        ModByCharRange(t[i] - neg, (t[i] + shift) / CHAR_RANGE + CHAR_RANGE, r);
      }
    } else {
      assert neg == -(shift as int);
    }
  }

  /** Shifts that agree modulo 2^16 give the same cipher text. */
  lemma ShiftMattersModCharRange(t: Text, s1: Int32, s2: Int32)
    requires s1 % CHAR_RANGE == s2 % CHAR_RANGE
    ensures Encrypted(t, s1) == Encrypted(t, s2)
    ensures Decrypted(t, s1) == Decrypted(t, s2)
  {
    forall i | 0 <= i < |t|
      ensures Encrypted(t, s1)[i] == Encrypted(t, s2)[i]
      ensures Decrypted(t, s1)[i] == Decrypted(t, s2)[i]
    {
      var k := s1 / CHAR_RANGE - s2 / CHAR_RANGE;
      ModByCharRange(t[i] + s1, (t[i] + s2) / CHAR_RANGE + k, (t[i] + s2) % CHAR_RANGE);
      ModByCharRange(t[i] - s1, (t[i] - s2) / CHAR_RANGE - k, (t[i] - s2) % CHAR_RANGE);
    }
  }

  /**
   * Each output code unit depends only on the input code unit at the same
   * position: encrypting a concatenation concatenates the encryptions.
   */
  lemma {:induction false} EncryptedConcat(a: Text, b: Text, shift: Int32)
    ensures Encrypted(a + b, shift) == Encrypted(a, shift) + Encrypted(b, shift)
  {
    if b != [] {
      var b' := b[..|b| - 1];
      assert (a + b)[..|a + b| - 1] == a + b';
      EncryptedConcat(a, b', shift);
    }
  }

  /**
   * Each output code unit depends only on the input code unit at the same
   * position: decrypting a concatenation concatenates the decryptions.
   */
  lemma {:induction false} DecryptedConcat(a: Text, b: Text, shift: Int32)
    ensures Decrypted(a + b, shift) == Decrypted(a, shift) + Decrypted(b, shift)
  {
    if b != [] {
      var b' := b[..|b| - 1];
      assert (a + b)[..|a + b| - 1] == a + b';
      DecryptedConcat(a, b', shift);
    }
  }

  /** Worked example with shift 3: "A" encrypts to "D". */
  lemma EncryptExampleA()
    ensures Encrypted([65], 3) == [68]
  {
    assert Encrypted([65], 3)[0] == 68;
  }

  /** Worked example with shift 3: "abc" encrypts to "def". */
  lemma EncryptExampleAbc()
    ensures Encrypted([97, 98, 99], 3) == [100, 101, 102]
  {
    var e := Encrypted([97, 98, 99], 3);
    assert e[0] == 100 && e[1] == 101 && e[2] == 102;
  }

  /** Worked example with shift 3: "D" decrypts to "A". */
  lemma DecryptExampleD()
    ensures Decrypted([68], 3) == [65]
  {
    assert Decrypted([68], 3)[0] == 65;
  }

  /** Worked example with shift 3: "def" decrypts to "abc". */
  lemma DecryptExampleDef()
    ensures Decrypted([100, 101, 102], 3) == [97, 98, 99]
  {
    var d := Decrypted([100, 101, 102], 3);
    assert d[0] == 97 && d[1] == 98 && d[2] == 99;
  }

  /** The last code unit U+FFFF wraps around to U+0000, and back. */
  lemma WrapAroundExample()
    ensures Encrypted([0xFFFF], 1) == [0]
    ensures Decrypted([0], 1) == [0xFFFF]
  {
  }
}
