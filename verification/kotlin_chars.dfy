/**
 * The slice of Kotlin's built-in arithmetic that the cipher relies on.
 *
 * A Kotlin `String` is a sequence of UTF-16 code units (`Char`, 16 bits
 * unsigned) and a Kotlin `Int` is a 32-bit two's-complement integer whose
 * addition and subtraction wrap around. `Char + Int` and `Char - Int` compute
 * `(code ± n)` as an `Int` and convert the result back with `toChar()`, which
 * keeps the least significant 16 bits.
 */
module KotlinChars {

  /** Number of distinct `Char` values: 2^16. */
  const CHAR_RANGE: int := 0x1_0000

  /** Number of distinct `Int` values: 2^32. */
  const INT_RANGE: int := 0x1_0000_0000

  /** A Kotlin `Char`: one UTF-16 code unit. */
  type Char16 = c: int | 0 <= c < CHAR_RANGE

  /** A Kotlin `Int`. */
  type Int32 = x: int | -0x8000_0000 <= x < 0x8000_0000

  /** A Kotlin `String`, seen as the code units a `for` loop visits in order. */
  type Text = seq<Char16>

  /** If x = CHAR_RANGE * q + r with r a valid remainder, then r is x's remainder. */
  lemma ModByCharRange(x: int, q: int, r: int)
    requires x == CHAR_RANGE * q + r && 0 <= r < CHAR_RANGE
    ensures x % CHAR_RANGE == r
  {
    var q', r' := x / CHAR_RANGE, x % CHAR_RANGE;
    assert CHAR_RANGE * (q - q') == r' - r;
  }

  /** Numbers that agree modulo 2^32 agree modulo 2^16 too, since 2^16 divides 2^32. */
  lemma CongruentMod32Implies16(a: int, b: int)
    requires a % INT_RANGE == b % INT_RANGE
    ensures a % CHAR_RANGE == b % CHAR_RANGE
  {
    var k := a / INT_RANGE - b / INT_RANGE;
    assert a == b + INT_RANGE * k;
    var q := b / CHAR_RANGE;
    ModByCharRange(a, q + CHAR_RANGE * k, b % CHAR_RANGE);
  }

  /**
   * The `Int` result of an addition or subtraction whose exact value is `x`:
   * the unique `Int` congruent to `x` modulo 2^32.
   */
  function WrapInt(x: int): (r: Int32)
    ensures r % INT_RANGE == x % INT_RANGE
    ensures -0x8000_0000 <= x < 0x8000_0000 ==> r == x
  {
    var m := x % INT_RANGE;
    if m < 0x8000_0000 then m else m - INT_RANGE
  }

  /**
   * The conversion of an `Int` result back to a `Char` inside `Char.plus(Int)`
   * and `Char.minus(Int)`: the code unit given by the least significant 16 bits.
   */
  function ToChar(x: Int32): (r: Char16)
    ensures (x - r) % CHAR_RANGE == 0
  {
    x % CHAR_RANGE
  }

  /** `Char.plus(Int)`: moves a code unit forward by `n`, modulo 2^16. */
  function Plus(c: Char16, n: Int32): (r: Char16)
    ensures r == (c + n) % CHAR_RANGE
  {
    CongruentMod32Implies16(WrapInt(c + n), c + n);
    ToChar(WrapInt(c + n))
  }

  /** `Char.minus(Int)`: moves a code unit backward by `n`, modulo 2^16. */
  function Minus(c: Char16, n: Int32): (r: Char16)
    ensures r == (c - n) % CHAR_RANGE
  {
    CongruentMod32Implies16(WrapInt(c - n), c - n);
    ToChar(WrapInt(c - n))
  }

  /** `Char.minus(Int)` undoes `Char.plus(Int)` for every shift. */
  lemma MinusUndoesPlus(c: Char16, n: Int32)
    ensures Minus(Plus(c, n), n) == c
  {
    var p := c + n;
    ModByCharRange(p, p / CHAR_RANGE, Plus(c, n));
    ModByCharRange(Plus(c, n) - n, -(p / CHAR_RANGE), c);
  }

  /** `Char.plus(Int)` undoes `Char.minus(Int)` for every shift. */
  lemma PlusUndoesMinus(c: Char16, n: Int32)
    ensures Plus(Minus(c, n), n) == c
  {
    var d := c - n;
    ModByCharRange(d, d / CHAR_RANGE, Minus(c, n));
    ModByCharRange(Minus(c, n) + n, -(d / CHAR_RANGE), c);
  }
}
