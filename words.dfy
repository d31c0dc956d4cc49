/**
 * The machine's word arithmetic: 16-bit cells, the 15-bit value range every
 * arithmetic opcode reduces into, the literal/register encoding of operand
 * words, and the u16 bitwise operators `&`, `|` and `!` that the interpreter
 * applies to words.
 *
 * Words are modelled as `int` restricted by `IsWord`. The bitwise operators
 * are defined bit by bit, from the least significant bit up, so that what
 * they compute can be proved arithmetically.
 */
module Words {

  /** Number of distinct u16 values. */
  const WORD_LIMIT: int := 0x1_0000
  /** The arithmetic modulus; also the first register-reference word. */
  const MODULUS: int := 0x8000
  /** Number of memory cells (the `mem` array of `State`). */
  const MEM_SIZE: int := 32768
  /** Number of registers (the `regs` array of `State`). */
  const NUM_REGS: int := 8

  /** A value a u16 can hold. */
  predicate IsWord(x: int) { 0 <= x < WORD_LIMIT }

  /** A value a u8 can hold (one input byte). */
  predicate IsByte(x: int) { 0 <= x < 0x100 }

  predicate AllWords(xs: seq<int>) { forall i | 0 <= i < |xs| :: IsWord(xs[i]) }

  predicate AllBytes(xs: seq<int>) { forall i | 0 <= i < |xs| :: IsByte(xs[i]) }

  lemma AllBytesDrop(xs: seq<int>, k: nat)
    requires AllBytes(xs) && k <= |xs|
    ensures AllBytes(xs[k..])
  {
    assert forall i | 0 <= i < |xs[k..]| :: xs[k..][i] == xs[k + i];
  }

  /** Every element is below the modulus: what a register holds at rest. */
  predicate AllBelowModulus(xs: seq<int>) { forall i | 0 <= i < |xs| :: 0 <= xs[i] < MODULUS }

  /** An operand word with its top bit clear stands for itself. */
  predicate IsLiteral(w: int) { w < MODULUS }

  /** The register index named by an operand word with its top bit set. */
  function RegIndex(w: int): int
    requires !IsLiteral(w)
  {
    w - MODULUS
  }

  function Pow2(n: nat): (r: nat)
    ensures r >= 1
  {
    if n == 0 then 1 else 2 * Pow2(n - 1)
  }

  /** Bitwise AND of the low `n` bits of `x` and `y`. */
  function AndBits(x: nat, y: nat, n: nat): (r: nat)
    ensures r < Pow2(n)
  {
    if n == 0 then 0
    else 2 * AndBits(x / 2, y / 2, n - 1) + (if x % 2 == 1 && y % 2 == 1 then 1 else 0)
  }

  /** Bitwise OR of the low `n` bits of `x` and `y`. */
  function OrBits(x: nat, y: nat, n: nat): (r: nat)
    ensures r < Pow2(n)
  {
    if n == 0 then 0
    else 2 * OrBits(x / 2, y / 2, n - 1) + (if x % 2 == 1 || y % 2 == 1 then 1 else 0)
  }

  /** Bitwise complement of the low `n` bits of `x`. */
  function NotBits(x: nat, n: nat): (r: nat)
    ensures r < Pow2(n)
  {
    if n == 0 then 0 else 2 * NotBits(x / 2, n - 1) + (1 - x % 2)
  }

  /** u16 `x & y`. */
  function And16(x: nat, y: nat): nat { AndBits(x, y, 16) }

  /** u16 `x | y`. */
  function Or16(x: nat, y: nat): nat { OrBits(x, y, 16) }

  /** u16 `!x`. */
  function Not16(x: nat): nat { NotBits(x, 16) }

  /** The `not` opcode's result: `(!x) & 0x7fff`. */
  function Not15(x: nat): nat { And16(Not16(x), 0x7fff) }

  lemma Pow2Values()
    ensures Pow2(15) == 0x8000 && Pow2(16) == 0x1_0000
  {
    assert Pow2(4) == 16;
    assert Pow2(8) == 256;
    assert Pow2(12) == 4096;
  }

  // ---------------------------------------------------------------------
  // Bit-level facts, by induction on the number of bits

  lemma {:induction false} AndBitsAtMost(x: nat, y: nat, n: nat)
    ensures AndBits(x, y, n) <= x && AndBits(x, y, n) <= y
  {
    if n > 0 {
      AndBitsAtMost(x / 2, y / 2, n - 1);
    }
  }

  lemma {:induction false} OrBitsBelow(x: nat, y: nat, n: nat, m: nat)
    requires x < Pow2(m) && y < Pow2(m)
    ensures OrBits(x, y, n) < Pow2(m)
  {
    if n > 0 {
      if m == 0 {
        OrBitsBelow(x / 2, y / 2, n - 1, 0);
      } else {
        OrBitsBelow(x / 2, y / 2, n - 1, m - 1);
      }
    }
  }

  lemma {:induction false} NotBitsValue(x: nat, n: nat)
    requires x < Pow2(n)
    ensures NotBits(x, n) == Pow2(n) - 1 - x
  {
    if n > 0 {
      NotBitsValue(x / 2, n - 1);
    }
  }

  /** Unfolding `AndBits` against an odd mask. */
  lemma AndOddStep(x: nat, m: nat, n: nat)
    requires n > 0
    ensures AndBits(x, 2 * m + 1, n) == 2 * AndBits(x / 2, m, n - 1) + x % 2
  {
    SplitLowBit(m, 1);
  }

  /** Unfolding `AndBits` against an even mask. */
  lemma AndEvenStep(x: nat, m: nat, n: nat)
    requires n > 0
    ensures AndBits(x, 2 * m, n) == 2 * AndBits(x / 2, m, n - 1)
  {
    SplitLowBit(m, 0);
  }

  /** Masking with `2^k - 1` keeps the low `k` bits. */
  lemma AndLowMask(x: nat, k: nat, n: nat)
    requires k <= n
    ensures AndBits(x, Pow2(k) - 1, n) == x % Pow2(k)
  {
    AndLowBits(x, k, n);
    LowBitsMod(x, k);
  }

  /** The number the low `k` bits of `x` make. */
  function LowBits(x: nat, k: nat): nat
  {
    if k == 0 then 0 else 2 * LowBits(x / 2, k - 1) + x % 2
  }

  lemma {:induction false} AndLowBits(x: nat, k: nat, n: nat)
    requires k <= n
    ensures AndBits(x, Pow2(k) - 1, n) == LowBits(x, k)
  {
    if k == 0 {
      AndBitsAtMost(x, 0, n);
    } else {
      var p := Pow2(k - 1);
      assert Pow2(k) - 1 == 2 * (p - 1) + 1;
      AndOddStep(x, p - 1, n);
      AndLowBits(x / 2, k - 1, n - 1);
    }
  }

  lemma {:induction false} LowBitsMod(x: nat, k: nat)
    ensures LowBits(x, k) == x % Pow2(k)
  {
    if k > 0 {
      LowBitsMod(x / 2, k - 1);
      DivModStep(x, Pow2(k - 1));
    }
  }

  /** Masking with `2^k` isolates bit `k`. */
  lemma {:induction false} AndBitMask(x: nat, k: nat, n: nat)
    requires k < n
    ensures AndBits(x, Pow2(k), n) == if Bit(x, k) == 1 then Pow2(k) else 0
  {
    if k == 0 {
      AndBitsAtMost(x / 2, 0, n - 1);
      AndOddStep(x, 0, n);
      assert Pow2(0) == 1;
    } else {
      var p := Pow2(k - 1);
      AndEvenStep(x, p, n);
      AndBitMask(x / 2, k - 1, n - 1);
      BitOfHalf(x, k);
    }
  }

  /** `x % 2m == 2 * ((x / 2) % m) + x % 2` */
  lemma DivModStep(x: nat, m: nat)
    requires m >= 1
    ensures x % (2 * m) == 2 * ((x / 2) % m) + x % 2
  {
    var q, r := x / 2, x % 2;
    var t, u := q / m, q % m;
    assert x == 2 * m * t + (2 * u + r);
    assert 0 <= 2 * u + r < 2 * m;
    DivModUnique(x, 2 * m, t, 2 * u + r);
  }

  /** `(x / 2) / m == x / (2m)` */
  lemma DivDiv(x: nat, m: nat)
    requires m >= 1
    ensures (x / 2) / m == x / (2 * m)
  {
    var q, r := x / 2, x % 2;
    var t, u := q / m, q % m;
    assert x == 2 * m * t + (2 * u + r);
    DivModUnique(x, 2 * m, t, 2 * u + r);
  }

  lemma DivModUnique(x: int, d: int, q: int, r: int)
    requires d > 0 && x == d * q + r && 0 <= r < d
    ensures x / d == q && x % d == r
  {
    var q', r' := x / d, x % d;
    assert x == d * q' + r';
    if q > q' {
      MulAtLeast(d, q - q');
      assert false;
    } else if q < q' {
      MulAtLeast(d, q' - q);
      assert false;
    }
  }

  lemma MulAtLeast(d: int, k: int)
    requires d > 0 && k >= 1
    ensures d * k >= d
  {
  }

  /** Bit `k` of `x`. */
  function Bit(x: nat, k: nat): (b: nat)
    ensures b < 2
  {
    (x / Pow2(k)) % 2
  }

  lemma BitOfHalf(x: nat, k: nat)
    requires k > 0
    ensures Bit(x, k) == Bit(x / 2, k - 1)
  {
    DivDiv(x, Pow2(k - 1));
  }

  /** Bit 0 of `2a + b`, and the number left when it is shifted out. */
  lemma SplitLowBit(a: nat, b: nat)
    requires b < 2
    ensures (2 * a + b) % 2 == b && (2 * a + b) / 2 == a
    ensures Bit(2 * a + b, 0) == b
  {
    DivModUnique(2 * a + b, 2, a, b);
  }

  /** Below bit `n`, bit `k` of `x & y` is the AND of bit `k` of `x` and of `y`. */
  lemma {:induction false} AndBitwise(x: nat, y: nat, n: nat, k: nat)
    requires k < n
    ensures Bit(AndBits(x, y, n), k) == if Bit(x, k) == 1 && Bit(y, k) == 1 then 1 else 0
  {
    var a, b := AndBits(x / 2, y / 2, n - 1), if x % 2 == 1 && y % 2 == 1 then 1 else 0;
    assert AndBits(x, y, n) == 2 * a + b;
    SplitLowBit(a, b);
    if k > 0 {
      AndBitwise(x / 2, y / 2, n - 1, k - 1);
      BitOfHalf(x, k);
      BitOfHalf(y, k);
      BitOfHalf(2 * a + b, k);
    }
  }

  /** Below bit `n`, bit `k` of `x | y` is the OR of bit `k` of `x` and of `y`. */
  lemma {:induction false} OrBitwise(x: nat, y: nat, n: nat, k: nat)
    requires k < n
    ensures Bit(OrBits(x, y, n), k) == if Bit(x, k) == 1 || Bit(y, k) == 1 then 1 else 0
  {
    var a, b := OrBits(x / 2, y / 2, n - 1), if x % 2 == 1 || y % 2 == 1 then 1 else 0;
    assert OrBits(x, y, n) == 2 * a + b;
    SplitLowBit(a, b);
    if k > 0 {
      OrBitwise(x / 2, y / 2, n - 1, k - 1);
      BitOfHalf(x, k);
      BitOfHalf(y, k);
      BitOfHalf(2 * a + b, k);
    }
  }

  /** Below bit `n`, bit `k` of `!x` is the complement of bit `k` of `x`. */
  lemma {:induction false} NotBitwise(x: nat, n: nat, k: nat)
    requires k < n
    ensures Bit(NotBits(x, n), k) == 1 - Bit(x, k)
  {
    var a, b := NotBits(x / 2, n - 1), 1 - x % 2;
    assert NotBits(x, n) == 2 * a + b;
    SplitLowBit(a, b);
    if k > 0 {
      NotBitwise(x / 2, n - 1, k - 1);
      BitOfHalf(x, k);
      BitOfHalf(2 * a + b, k);
    }
  }

  // ---------------------------------------------------------------------
  // The interpreter's uses of the bitwise operators

  /**
   * The interpreter tells a literal from a register reference by testing
   * `w & 0x8000 == 0` and takes the register index as `w & 0x7fff`. On u16
   * words these agree with `IsLiteral` and `RegIndex`.
   */
  lemma OperandMasks(w: int)
    requires IsWord(w)
    ensures (And16(w, 0x8000) == 0) == IsLiteral(w)
    ensures !IsLiteral(w) ==> And16(w, 0x7fff) == RegIndex(w)
  {
    Pow2Values();
    AndBitMask(w, 15, 16);
    AndLowMask(w, 15, 16);
  }

  /** `a & b` and `a | b` of 15-bit values stay 15-bit; both are u16 words. */
  lemma AndOrBelowModulus(x: nat, y: nat)
    ensures IsWord(And16(x, y)) && IsWord(Or16(x, y))
    ensures x < MODULUS && y < MODULUS ==> And16(x, y) < MODULUS && Or16(x, y) < MODULUS
  {
    Pow2Values();
    AndBitsAtMost(x, y, 16);
    if x < MODULUS && y < MODULUS {
      OrBitsBelow(x, y, 16, 15);
    }
  }

  /** u16 `!x` of a word is `0xffff - x`. */
  lemma Not16Value(x: nat)
    requires IsWord(x)
    ensures Not16(x) == 0xffff - x
  {
    Pow2Values();
    NotBitsValue(x, 16);
  }

  /** `!x & 0x7fff` keeps the low 15 bits of `0xffff - x`. */
  lemma Not15Mod(x: nat)
    requires IsWord(x)
    ensures Not15(x) == (0xffff - x) % MODULUS
  {
    Not16Value(x);
    Pow2Values();
    AndLowMask(0xffff - x, 15, 16);
  }

  /** Flipping all 16 bits and keeping 15 flips the low 15 bits. */
  lemma FlipMod(x: int)
    requires IsWord(x)
    ensures (0xffff - x) % MODULUS == 0x7fff - x % MODULUS
  {
    if x < MODULUS {
      DivModUnique(x, MODULUS, 0, x);
      DivModUnique(0xffff - x, MODULUS, 1, 0x7fff - x);
    } else {
      DivModUnique(x, MODULUS, 1, x - MODULUS);
      DivModUnique(0xffff - x, MODULUS, 0, 0xffff - x);
    }
  }

  /** The `not` opcode's result is the 15-bit complement of the word's low 15 bits. */
  lemma Not15Value(x: nat)
    requires IsWord(x)
    ensures Not15(x) == 0x7fff - x % MODULUS
    ensures x < MODULUS ==> Not15(x) == 0x7fff - x
  {
    Not15Mod(x);
    FlipMod(x);
    if x < MODULUS {
      DivModUnique(x, MODULUS, 0, x);
    }
  }
}
