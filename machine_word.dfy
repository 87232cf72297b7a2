/** The machine word of a 64-bit target: `usize`, `isize`, the wrapping subtraction
    `usize::overflowing_sub` and the two `as` casts between them, written out as
    explicit arithmetic modulo 2^64. */
module MachineWord {

  /** 2^n: the number of values of an n-bit integer. */
  function Pow2(n: nat): (r: int)
    ensures r >= 1
  {
    if n == 0 then 1 else 2 * Pow2(n - 1)
  }

  /** Exponents add when powers multiply. */
  lemma {:induction false} Pow2Add(a: nat, b: nat)
    ensures Pow2(a + b) == Pow2(a) * Pow2(b)
  {
    if b > 0 {
      Pow2Add(a, b - 1);
      assert Pow2(a + b) == 2 * Pow2(a + b - 1);
    }
  }

  /** The powers of two that bound the 8-, 16-, 32- and 64-bit integer types. */
  lemma Pow2Table()
    ensures Pow2(7) == 0x80 && Pow2(8) == 0x100
    ensures Pow2(15) == 0x8000 && Pow2(16) == 0x1_0000
    ensures Pow2(31) == 0x8000_0000 && Pow2(32) == 0x1_0000_0000
    ensures Pow2(63) == 0x8000_0000_0000_0000 && Pow2(64) == 0x1_0000_0000_0000_0000
  {
    assert Pow2(8) == 2 * Pow2(7);
    Pow2Add(8, 8);
    assert Pow2(16) == 2 * Pow2(15);
    Pow2Add(16, 16);
    assert Pow2(32) == 2 * Pow2(31);
    Pow2Add(32, 32);
    assert Pow2(64) == 2 * Pow2(63);
  }

  /** The target this model fixes: 64-bit `usize` and `isize`. */
  const WORD_BITS: nat := 64
  const WORD_MODULUS: int := 0x1_0000_0000_0000_0000
  const USIZE_MAX: int := 0xFFFF_FFFF_FFFF_FFFF
  const ISIZE_MAX: int := 0x7FFF_FFFF_FFFF_FFFF
  const ISIZE_MIN: int := -0x8000_0000_0000_0000

  /** An unsigned machine word: a position in the archive. */
  type Usize = x: int | 0 <= x <= 0xFFFF_FFFF_FFFF_FFFF

  /** A signed machine word: a distance between two positions. */
  type Isize = x: int | -0x8000_0000_0000_0000 <= x <= 0x7FFF_FFFF_FFFF_FFFF

  predicate InIsize(x: int) {
    ISIZE_MIN <= x <= ISIZE_MAX
  }

  /** Two integers that have the same 64-bit two's-complement representation. */
  predicate SameBits(x: int, y: int) {
    (x - y) % WORD_MODULUS == 0
  }

  /** `a.overflowing_sub(b)`: the difference wrapped into `usize`, and whether it wrapped. */
  function OverflowingSub(a: Usize, b: Usize): (r: (Usize, bool))
    ensures SameBits(r.0, a - b)
    ensures r.1 <==> a - b < 0
  {
    if b <= a then (a - b, false) else (a - b + WORD_MODULUS, true)
  }

  /** `x as isize` for `x: usize`: the same bits read as two's complement. */
  function UsizeAsIsize(x: Usize): (r: Isize)
    ensures SameBits(r, x)
    ensures r < 0 <==> x > ISIZE_MAX
  {
    if x <= ISIZE_MAX then x else x - WORD_MODULUS
  }

  /** `x as usize` for `x: isize`: the same bits read as unsigned. */
  function IsizeAsUsize(x: Isize): (r: Usize)
    ensures SameBits(r, x)
    ensures r > ISIZE_MAX <==> x < 0
  {
    if 0 <= x then x else x + WORD_MODULUS
  }

  /** The word constants are the 64-bit instances of the ranges of `uN` and `iN`. */
  lemma WordConstantsAreBitRanges()
    ensures WORD_MODULUS == Pow2(WORD_BITS)
    ensures USIZE_MAX == Pow2(WORD_BITS) - 1
    ensures ISIZE_MAX == Pow2(WORD_BITS - 1) - 1
    ensures ISIZE_MIN == -Pow2(WORD_BITS - 1)
  {
    Pow2Table();
  }

  /** The two casts are inverse bijections between `usize` and `isize`. */
  lemma CastsRoundTrip(x: Usize, y: Isize)
    ensures IsizeAsUsize(UsizeAsIsize(x)) == x
    ensures UsizeAsIsize(IsizeAsUsize(y)) == y
  {
  }
}
