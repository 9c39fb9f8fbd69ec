# Caesar cipher of the biometric-authentication demo, in Dafny

The Android demo obscures a displayed message with a shift cipher until the
user authenticates. `CaesarCipher` is an immutable object that holds an
`Int` shift. `encryptMessage` builds its result in a loop: it starts from
`""` and appends each character of the input moved forward by the shift.
`decryptMessage` does the same but moves each character backward.

This project models that class on the semantics of Kotlin's built-in types:

- A `String` is a sequence of UTF-16 code units. `Char` is modelled as
  `KotlinChars.Char16`, an integer in `0..65535`. A message is a
  `KotlinChars.Text`.
- An `Int` is a 32-bit value (`KotlinChars.Int32`) whose arithmetic wraps
  (`KotlinChars.WrapInt`).
- `Char + Int` and `Char - Int` compute the `Int` sum or difference and
  keep its low 16 bits (`KotlinChars.Plus`, `KotlinChars.Minus`). They are
  proved equal to `(c ± n) mod 65536` for every shift.
- `Cipher.Encrypted` and `Cipher.Decrypted` are specification functions
  for the two operations. `Cipher.CaesarCipher` is the class. Its shift is a
  `const` field, so no call can change it. Its two methods keep the source's
  accumulate-in-a-loop shape and are proved equal to the specification
  functions.

The round trip holds in both directions for every `Int` shift, including 0,
negative shifts and `Int.MIN_VALUE`. The shift is taken modulo 65536.

A Kotlin `String` is iterated as UTF-16 code units (`CaesarCipher.kt` lines
24 and 39), so a surrogate pair is shifted one half at a time. The operators
`Char.plus(Int)` and `Char.minus(Int)`, used at lines 25 and 40, keep the low
16 bits of the `Int` result. Every result is therefore a valid `Char`, and no
value falls out of range. The `.toString()` call on those lines turns the
shifted `Char` into a one-character string that is appended to the result.

## Model

| member | source | states |
|---|---|---|
| KotlinChars.WrapInt | app/src/main/java/com/hectordelgado/biometricauthentication/CaesarCipher.kt:25 | The `Int` result of `c + cipherShift` is congruent to the exact sum modulo 2^32, and equals it when the sum fits in an `Int` |
| KotlinChars.ToChar | app/src/main/java/com/hectordelgado/biometricauthentication/CaesarCipher.kt:25 | The conversion of an `Int` to a `Char` inside `Char.plus(Int)` and `Char.minus(Int)` gives the one code unit congruent to the `Int` modulo 65536, i.e. its low 16 bits |
| KotlinChars.Plus | app/src/main/java/com/hectordelgado/biometricauthentication/CaesarCipher.kt:25 | `Char + Int` gives `(c + n) mod 65536` for every 32-bit `n`; the 32-bit overflow never changes the result |
| KotlinChars.Minus | app/src/main/java/com/hectordelgado/biometricauthentication/CaesarCipher.kt:40 | `Char - Int` gives `(c - n) mod 65536` for every 32-bit `n` |
| KotlinChars.MinusUndoesPlus | app/src/main/java/com/hectordelgado/biometricauthentication/CaesarCipher.kt:21-44 | Moving a code unit forward and then backward by the same shift gives it back |
| KotlinChars.PlusUndoesMinus | app/src/main/java/com/hectordelgado/biometricauthentication/CaesarCipher.kt:21-44 | Moving a code unit backward and then forward by the same shift gives it back |
| Cipher.Encrypted | app/src/main/java/com/hectordelgado/biometricauthentication/CaesarCipher.kt:21-29 | The cipher text has the plain text's length, and position i holds `(plainText[i] + shift) mod 65536`: one output unit per input unit, in order |
| Cipher.Decrypted | app/src/main/java/com/hectordelgado/biometricauthentication/CaesarCipher.kt:36-44 | The plain text has the cipher text's length, and position i holds `(cipher[i] - shift) mod 65536` |
| Cipher.CaesarCipher.constructor | app/src/main/java/com/hectordelgado/biometricauthentication/CaesarCipher.kt:14 | The object holds the given shift; the field is `const`, so neither operation can modify it |
| Cipher.CaesarCipher.EncryptMessage | app/src/main/java/com/hectordelgado/biometricauthentication/CaesarCipher.kt:21-29 | The loop that starts from the empty string and appends each shifted unit returns exactly `Encrypted(plainText, cipherShift)` |
| Cipher.CaesarCipher.DecryptMessage | app/src/main/java/com/hectordelgado/biometricauthentication/CaesarCipher.kt:36-44 | The loop that starts from the empty string and appends each unit shifted back returns exactly `Decrypted(cipher, cipherShift)` |
| Cipher.DecryptEncrypt | app/src/main/java/com/hectordelgado/biometricauthentication/CaesarCipher.kt:21-44 | Decrypting the encryption of any text with the same shift gives the text back, for every `Int` shift |
| Cipher.EncryptDecrypt | app/src/main/java/com/hectordelgado/biometricauthentication/CaesarCipher.kt:21-44 | Encrypting the decryption of any text with the same shift gives the text back, for every `Int` shift |
| Cipher.EncryptedInjective | app/src/main/java/com/hectordelgado/biometricauthentication/CaesarCipher.kt:21-29 | Two messages with the same cipher text under one shift are equal |
| Cipher.ZeroShiftIsIdentity | app/src/main/java/com/hectordelgado/biometricauthentication/CaesarCipher.kt:21-44 | With shift 0, both operations return their input unchanged |
| Cipher.EmptyTextIsFixed | app/src/main/java/com/hectordelgado/biometricauthentication/CaesarCipher.kt:21-44 | The empty string maps to the empty string in both directions, for every shift |
| Cipher.EncryptIsDecryptNegated | app/src/main/java/com/hectordelgado/biometricauthentication/CaesarCipher.kt:21-44 | Encrypting with `s` equals decrypting with Kotlin's `-s`, including `s = Int.MIN_VALUE`, where `-s == s` |
| Cipher.ShiftMattersModCharRange | app/src/main/java/com/hectordelgado/biometricauthentication/CaesarCipher.kt:21-44 | Two shifts that agree modulo 65536 give the same result in both directions |
| Cipher.EncryptedConcat | app/src/main/java/com/hectordelgado/biometricauthentication/CaesarCipher.kt:24-26 | Encrypting a concatenation gives the concatenation of the encryptions, so each output unit depends only on the input unit at its position |
| Cipher.DecryptedConcat | app/src/main/java/com/hectordelgado/biometricauthentication/CaesarCipher.kt:39-41 | Decrypting a concatenation gives the concatenation of the decryptions, so each output unit depends only on the input unit at its position |
| Cipher.EncryptExampleA | app/src/main/java/com/hectordelgado/biometricauthentication/CaesarCipher.kt:21-29 | With shift 3, "A" encrypts to "D" |
| Cipher.EncryptExampleAbc | app/src/main/java/com/hectordelgado/biometricauthentication/CaesarCipher.kt:21-29 | With shift 3, "abc" encrypts to "def" |
| Cipher.DecryptExampleD | app/src/main/java/com/hectordelgado/biometricauthentication/CaesarCipher.kt:36-44 | With shift 3, "D" decrypts to "A" |
| Cipher.DecryptExampleDef | app/src/main/java/com/hectordelgado/biometricauthentication/CaesarCipher.kt:36-44 | With shift 3, "def" decrypts to "abc" |
| Cipher.WrapAroundExample | app/src/main/java/com/hectordelgado/biometricauthentication/CaesarCipher.kt:21-44 | With shift 1, U+FFFF encrypts to U+0000, and U+0000 decrypts to U+FFFF |

## Left out

- `MainActivity.kt` is not part of this model. It holds the activity lifecycle, the biometric prompt and its callbacks, the prompt-info builder and the snackbar messages. All of these are Android framework and UI code.
- `hasBiometricSupport` is left out. It maps framework status constants, whose values live outside the repository, to a boolean and a UI message.
- Building the result by repeated `String` concatenation is modelled as appending to a sequence. Its cost is not modelled.
- Concurrency is not modelled. The object is immutable, so concurrent calls cannot interfere.
- Unicode validity is not modelled: lone surrogates and unassigned code units are treated like any other code unit, as the code treats them.
