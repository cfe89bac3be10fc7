/**
 * `BitOps` for unsigned 64-bit words: set, test and clear bit `n`.
 * Shifting `1` by 64 or more panics in Rust, so every operation requires
 * `n < 64`; the bit index, a `u32` in Rust, is held in a 64-bit word here
 * because only values below 64 are allowed.
 *
 * The pure functions are the specification; `Bits` is the mutable word
 * whose `SetBit` and `ClearBit` update it in place.
 */
module BitOps {

  /** The single-bit mask `1 << n`. */
  function Mask(n: bv64): bv64
    requires n < 64
  {
    1 << n
  }

  /**
   * `test_bit`: the bit is set when masking with `1 << n` gives the mask
   * back, that is, when the `n`-th binary digit, counting from the least
   * significant, is 1.
   */
  function TestBit(x: bv64, n: bv64): (b: bool)
    requires n < 64
    ensures b <==> (x >> n) % 2 == 1
  {
    MaskedIsDigit(x, n);
    x & Mask(n) == Mask(n)
  }

  /** Masking with `1 << n` keeps the mask exactly when binary digit `n` is 1. */
  lemma MaskedIsDigit(x: bv64, n: bv64)
    requires n < 64
    ensures x & Mask(n) == Mask(n) <==> (x >> n) % 2 == 1
  {
  }

  /** The word `set_bit` leaves behind: bit `n` set, every other bit as it was. */
  function WithBitSet(x: bv64, n: bv64): (r: bv64)
    requires n < 64
    ensures TestBit(r, n)
    ensures r & !Mask(n) == x & !Mask(n)
  {
    OrSetsBit(x, n);
    Absorb(x, Mask(n));
    x | Mask(n)
  }

  /** The word `clear_bit` leaves behind: bit `n` clear, every other bit as it was. */
  function WithBitCleared(x: bv64, n: bv64): (r: bv64)
    requires n < 64
    ensures r & Mask(n) == 0
    ensures r & !Mask(n) == x & !Mask(n)
  {
    AndNotTwice(x, Mask(n));
    AndNotClearsBit(x, n);
    x & !Mask(n)
  }

  /** Or-ing in `1 << n` sets bit `n`. */
  lemma OrSetsBit(x: bv64, n: bv64)
    requires n < 64
    ensures (x | Mask(n)) & Mask(n) == Mask(n)
  {
  }

  /** And-ing out the same bits twice is and-ing them out once. */
  lemma AndNotTwice(x: bv64, m: bv64)
    ensures (x & !m) & !m == x & !m
  {
  }

  /** And-ing out `1 << n` clears bit `n`. */
  lemma AndNotClearsBit(x: bv64, n: bv64)
    requires n < 64
    ensures (x & !Mask(n)) & Mask(n) == 0
  {
  }

  /** After `clear_bit(n)`, `test_bit(n)` does not hold. */
  lemma TestAfterClear(x: bv64, n: bv64)
    requires n < 64
    ensures !TestBit(WithBitCleared(x, n), n)
  {
    MaskNonZero(n);
  }

  /** `1 << n` is not zero below 64. */
  lemma MaskNonZero(n: bv64)
    requires n < 64
    ensures Mask(n) != 0
  {
  }

  /** Masks of different bits share no bit. */
  lemma MasksDisjoint(n: bv64, m: bv64)
    requires n < 64 && m < 64 && m != n
    ensures Mask(n) & Mask(m) == 0
  {
  }

  /** Setting a bit that is already set, or clearing one already clear, changes nothing. */
  lemma NoChangeWhenAlready(x: bv64, n: bv64)
    requires n < 64
    ensures TestBit(x, n) ==> WithBitSet(x, n) == x
    ensures !TestBit(x, n) ==> WithBitCleared(x, n) == x
  {
  }

  /** `set_bit` and `clear_bit` are idempotent. */
  lemma SetClearIdempotent(x: bv64, n: bv64)
    requires n < 64
    ensures WithBitSet(WithBitSet(x, n), n) == WithBitSet(x, n)
    ensures WithBitCleared(WithBitCleared(x, n), n) == WithBitCleared(x, n)
  {
  }

  /**
   * Or-ing in a mask erases an earlier clearing of it, and and-ing it out an
   * earlier setting: with `m == Mask(n)`, a `set_bit` after a `clear_bit` of
   * the same bit is the `set_bit` alone, and the other way round.
   */
  lemma Absorb(x: bv64, m: bv64)
    ensures (x & !m) | m == x | m
    ensures (x | m) & !m == x & !m
  {
  }

  /** A `u64` whose bits are set and cleared in place. */
  class Bits {
    var value: bv64

    constructor (value: bv64)
      ensures this.value == value
    {
      this.value := value;
    }

    /** `test_bit`. */
    function Test(n: bv64): (b: bool)
      requires n < 64
      reads this
      ensures b <==> (value >> n) % 2 == 1
    {
      TestBit(value, n)
    }

    /** `set_bit`. */
    method SetBit(n: bv64)
      requires n < 64
      modifies this
      ensures value == WithBitSet(old(value), n)
    {
      value := WithBitSet(value, n);
    }

    /** `clear_bit`. */
    method ClearBit(n: bv64)
      requires n < 64
      modifies this
      ensures value == WithBitCleared(old(value), n)
    {
      value := WithBitCleared(value, n);
    }
  }
}
