/**
 Unsigned 64-bit machine words and their bitwise operators, defined digit by
 digit on the binary expansion, with the facts that turn a mask-and-shift
 expression into a field of the word.
 */
module Bits {

  const TWO64: nat := 0x1_0000_0000_0000_0000

  type uint64 = x: nat | x < 0x1_0000_0000_0000_0000
  type byte = x: nat | x < 256

  function Pow2(n: nat): (r: nat)
    ensures r > 0
  {
    if n == 0 then 1 else 2 * Pow2(n - 1)
  }

  /** Bitwise conjunction. */
  function And(x: nat, y: nat): (r: nat)
    ensures r <= x && r <= y
  {
    if x == 0 || y == 0 then 0
    else 2 * And(x / 2, y / 2) + (if x % 2 == 1 && y % 2 == 1 then 1 else 0)
  }

  /** Bitwise disjunction. */
  function Or(x: nat, y: nat): (r: nat)
    ensures r >= x && r >= y && r <= x + y
    decreases x + y
  {
    if x == 0 then y
    else if y == 0 then x
    else 2 * Or(x / 2, y / 2) + (if x % 2 == 1 || y % 2 == 1 then 1 else 0)
  }

  /** Bitwise complement of a 64-bit word. */
  function Not(x: uint64): uint64 {
    TWO64 - 1 - x
  }

  /** Left shift by n; bits moved past bit 63 are lost. */
  function Shl(x: nat, n: nat): uint64 {
    x * Pow2(n) % TWO64
  }

  /** Logical right shift by n. */
  function Shr(x: nat, n: nat): nat {
    NotNegative(x, Pow2(n));
    x / Pow2(n)
  }

  /** The mask with ones at bits k .. k+n-1. */
  function Mask(k: nat, n: nat): nat {
    if k > 0 then 2 * Mask(k - 1, n)
    else if n > 0 then 2 * Mask(0, n - 1) + 1
    else 0
  }

  lemma MulAtLeast(a: nat, d: nat)
    requires a >= 1
    ensures a * d >= d
  {
    assert a * d == d + (a - 1) * d;
  }

  lemma Distribute(k: int, q: int, d: int)
    ensures (k - q) * d == k * d - q * d
  {
  }

  lemma Division(x: nat, d: nat)
    requires d > 0
    ensures x == x / d * d + x % d && 0 <= x % d < d
  {
  }

  lemma NotNegative(x: nat, d: nat)
    requires d > 0
    ensures x / d >= 0
  {
    Division(x, d);
    if x / d < 0 {
      MulAtLeast(-(x / d), d);
      Distribute(0, x / d, d);
    }
  }

  lemma QuotientUnique(x: nat, d: nat, q: nat, r: nat)
    requires r < d && x == q * d + r
    ensures x / d == q && x % d == r
  {
    var k, s := x / d, x % d;
    Division(x, d);
    Distribute(k, q, d);
    if k > q {
      MulAtLeast(k - q, d);
    } else if k < q {
      MulAtLeast(q - k, d);
      Distribute(q, k, d);
    }
  }

  // One more binary digit: quotient and remainder by 2p from those by p.
  lemma Halve(x: nat, p: nat)
    requires p > 0
    ensures x / (2 * p) == x / 2 / p
    ensures x % (2 * p) == 2 * (x / 2 % p) + x % 2
  {
    var h := x / 2;
    Division(h, p);
    var q, r := h / p, h % p;
    assert q * (2 * p) == 2 * (q * p);
    assert x == q * (2 * p) + (2 * r + x % 2);
    QuotientUnique(x, 2 * p, q, 2 * r + x % 2);
  }

  lemma {:induction false} AndOnes(x: nat, n: nat)
    ensures And(x, Mask(0, n)) == x % Pow2(n)
  {
    if n == 0 {
    } else {
      AndOnes(x / 2, n - 1);
      Halve(x, Pow2(n - 1));
    }
  }

  /** Mask and shift extract the n-bit field that starts at bit k. */
  lemma ShiftHalf(x: nat, k: nat)
    requires k > 0
    ensures x / Pow2(k) == x / 2 / Pow2(k - 1)
    ensures Shr(x, k) == Shr(x / 2, k - 1)
  {
    Halve(x, Pow2(k - 1));
  }

  lemma FieldHalf(x: nat, k: nat, n: nat)
    requires k > 0
    ensures And(x, Mask(k, n)) / 2 == And(x / 2, Mask(k - 1, n))
  {
  }

  lemma {:induction false} Field(x: nat, k: nat, n: nat)
    ensures Shr(And(x, Mask(k, n)), k) == x / Pow2(k) % Pow2(n)
  {
    if k == 0 {
      AndOnes(x, n);
    } else {
      hide And, Mask, Shr, Pow2;
      FieldHalf(x, k, n);
      Field(x / 2, k - 1, n);
      ShiftHalf(x, k);
      ShiftHalf(And(x, Mask(k, n)), k);
    }
  }

  lemma OrHalves(x: nat, y: nat)
    ensures Or(x, y) / 2 == Or(x / 2, y / 2)
    ensures Or(x, y) % 2 == if x % 2 == 1 || y % 2 == 1 then 1 else 0
  {
    var b := if x % 2 == 1 || y % 2 == 1 then 1 else 0;
    if x > 0 && y > 0 {
      QuotientUnique(Or(x, y), 2, Or(x / 2, y / 2), b);
    }
  }

  lemma AndHalves(x: nat, y: nat)
    ensures And(x, y) / 2 == And(x / 2, y / 2)
    ensures And(x, y) % 2 == if x % 2 == 1 && y % 2 == 1 then 1 else 0
  {
    var b := if x % 2 == 1 && y % 2 == 1 then 1 else 0;
    if x > 0 && y > 0 {
      QuotientUnique(And(x, y), 2, And(x / 2, y / 2), b);
    }
  }

  /** Setting bits below position n leaves the bits from n up alone. */
  lemma {:induction false} OrLow(x: nat, f: nat, n: nat)
    requires f < Pow2(n)
    ensures Or(x, f) / Pow2(n) == x / Pow2(n)
  {
    if n == 0 {
    } else {
      var p := Pow2(n - 1);
      OrLow(x / 2, f / 2, n - 1);
      Halve(x, p);
      Halve(Or(x, f), p);
      OrHalves(x, f);
    }
  }

  /** Low bits are put beside a multiple of 2^n without interference. */
  lemma {:induction false} OrBeside(a: nat, f: nat, n: nat)
    requires f < Pow2(n)
    ensures Or(a * Pow2(n), f) == a * Pow2(n) + f
  {
    if n == 0 {
    } else {
      var p := Pow2(n - 1);
      assert a * Pow2(n) == 2 * (a * p);
      OrBeside(a, f / 2, n - 1);
      assert Or(2 * (a * p), f) == 2 * Or(a * p, f / 2) + f % 2;
    }
  }

  /** Disjunction does not need more bits than its operands. */
  lemma {:induction false} OrFits(x: nat, y: nat, n: nat)
    requires x < Pow2(n) && y < Pow2(n)
    ensures Or(x, y) < Pow2(n)
  {
    if n > 0 {
      OrFits(x / 2, y / 2, n - 1);
    }
  }

  /** Bit j of a number. */
  predicate Bit(x: nat, j: nat) {
    if j == 0 then x % 2 == 1 else Bit(x / 2, j - 1)
  }

  /** What Or is for. */
  lemma {:induction false} OrBits(x: nat, y: nat, j: nat)
    ensures Bit(Or(x, y), j) <==> Bit(x, j) || Bit(y, j)
  {
    OrHalves(x, y);
    if j > 0 {
      OrBits(x / 2, y / 2, j - 1);
    }
  }

  /** What And is for. */
  lemma {:induction false} AndBits(x: nat, y: nat, j: nat)
    ensures Bit(And(x, y), j) <==> Bit(x, j) && Bit(y, j)
  {
    AndHalves(x, y);
    if j > 0 {
      AndBits(x / 2, y / 2, j - 1);
    }
  }

  lemma {:induction false} NoBits(j: nat)
    ensures !Bit(0, j)
  {
    if j > 0 {
      NoBits(j - 1);
    }
  }

  lemma {:induction false} PowerBit(k: nat, j: nat)
    ensures Bit(Pow2(k), j) <==> j == k
  {
    if k == 0 {
      if j > 0 {
        NoBits(j - 1);
      }
    } else if j > 0 {
      assert Pow2(k) / 2 == Pow2(k - 1);
      PowerBit(k - 1, j - 1);
    }
  }

  lemma {:induction false} ShiftedBits(a: nat, n: nat, j: nat)
    requires j < n
    ensures !Bit(a * Pow2(n), j)
  {
    assert a * Pow2(n) == 2 * (a * Pow2(n - 1));
    if j > 0 {
      ShiftedBits(a, n - 1, j - 1);
    }
  }

  lemma AndOne(x: nat)
    ensures And(x, 1) == x % 2
  {
    assert And(x / 2, 0) == 0;
  }

  // Eight more positions at a time.
  lemma Pow2Step(n: nat)
    ensures Pow2(n + 8) == 256 * Pow2(n)
  {
    assert Pow2(n + 8) == 2 * Pow2(n + 7) == 4 * Pow2(n + 6) == 8 * Pow2(n + 5) == 16 * Pow2(n + 4);
    assert Pow2(n + 4) == 2 * Pow2(n + 3) == 4 * Pow2(n + 2) == 8 * Pow2(n + 1) == 16 * Pow2(n);
  }

  lemma MaskStep(k: nat, n: nat)
    ensures Mask(k + 8, n) == 256 * Mask(k, n)
  {
    assert Mask(k + 8, n) == 2 * Mask(k + 7, n) == 4 * Mask(k + 6, n) == 8 * Mask(k + 5, n) == 16 * Mask(k + 4, n);
    assert Mask(k + 4, n) == 2 * Mask(k + 3, n) == 4 * Mask(k + 2, n) == 8 * Mask(k + 1, n) == 16 * Mask(k, n);
  }

  lemma {:induction false} MaskOnes(n: nat)
    ensures Mask(0, n) == Pow2(n) - 1
  {
    if n > 0 {
      MaskOnes(n - 1);
    }
  }

  lemma Powers()
    ensures Pow2(9) == 0x200 && Pow2(10) == 0x400 && Pow2(12) == 0x1000
    ensures Pow2(21) == 0x20_0000 && Pow2(27) == 0x800_0000
    ensures Pow2(30) == 0x4000_0000 && Pow2(44) == 0x1000_0000_0000
    ensures Pow2(63) == 0x8000_0000_0000_0000 && Pow2(64) == TWO64
  {
    assert Pow2(3) == 8 && Pow2(4) == 16;
    Pow2Step(1); Pow2Step(2); Pow2Step(4);
    Pow2Step(5); Pow2Step(13);
    Pow2Step(3); Pow2Step(11); Pow2Step(19);
    Pow2Step(6); Pow2Step(14); Pow2Step(22);
    Pow2Step(12); Pow2Step(20); Pow2Step(28); Pow2Step(36);
    Pow2Step(7); Pow2Step(15); Pow2Step(23); Pow2Step(31); Pow2Step(39); Pow2Step(47); Pow2Step(55);
  }

  lemma Masks()
    ensures Mask(0, 12) == 0xfff
    ensures Mask(12, 27) == 0x0000_007f_ffff_f000
    ensures Mask(12, 44) == 0x00ff_ffff_ffff_f000
    ensures Mask(30, 9) == 0x0000_007f_c000_0000
    ensures Mask(21, 9) == 0x3fe0_0000
    ensures Mask(12, 9) == 0x001f_f000
    ensures Mask(0, 10) == 0x3ff
    ensures Mask(10, 44) == 0x003f_ffff_ffff_fc00
  {
    Powers();
    MaskOnes(12); MaskOnes(27); MaskOnes(44); MaskOnes(9); MaskOnes(10);
    MaskStep(4, 27); MaskStep(4, 44); MaskStep(4, 9);
    MaskStep(22, 9); MaskStep(14, 9); MaskStep(6, 9);
    MaskStep(13, 9); MaskStep(5, 9);
    MaskStep(2, 44);
    assert Mask(4, 9) == 16 * Mask(0, 9);
    assert Mask(4, 27) == 16 * Mask(0, 27);
    assert Mask(4, 44) == 16 * Mask(0, 44);
    assert Mask(6, 9) == 64 * Mask(0, 9);
    assert Mask(5, 9) == 32 * Mask(0, 9);
    assert Mask(2, 44) == 4 * Mask(0, 44);
  }

  /** Disjunction of two 64-bit words. */
  function Or64(x: uint64, y: uint64): (r: uint64)
    ensures r == Or(x, y)
  {
    Powers();
    OrFits(x, y, 64);
    Or(x, y)
  }

  // Every word below 2^63 survives a mask of 63 ones.
  lemma AndAllOnes(h: nat, m: nat)
    requires h < 0x8000_0000_0000_0000 && m == 0x7fff_ffff_ffff_ffff
    ensures And(h, m) == h
  {
    Powers();
    MaskOnes(63);
    AndOnes(h, 63);
    QuotientUnique(h, Pow2(63), 0, h);
  }

  /** Clearing bit 0 with the complement of 1. */
  lemma AndNotOne(x: uint64, y: nat)
    requires y == Not(1)
    ensures And(x, y) == x - x % 2
  {
    AndAllOnes(x / 2, y / 2);
  }
}
