/**
  Bitwise conjunction on natural numbers, and what masking off low bits does to a number.
 */
module Bits {
  import opened HeapModel

  function And(x: nat, y: nat): nat {
    if x == 0 || y == 0 then 0 else (if x % 2 == 1 && y % 2 == 1 then 1 else 0) + 2 * And(x / 2, y / 2)
  }

  /** The complement of `x` in a word of `width` bits. */
  function Not(x: nat, width: nat): nat
    requires x < Pow2(width)
  {
    Pow2(width) - 1 - x
  }

  lemma {:induction false} PowAdd(m: nat, n: nat)
    ensures Pow2(m + n) == Pow2(m) * Pow2(n)
  {
    if m > 0 {
      PowAdd(m - 1, n);
      assert Pow2(m + n) == 2 * Pow2(m - 1 + n);
    }
  }

  lemma {:induction false} PowMonotone(m: nat, n: nat)
    ensures m <= n ==> Pow2(m) <= Pow2(n)
  {
    if m < n { PowMonotone(m, n - 1); }
  }

  lemma HalfRange()
    ensures Pow2(63) == 0x8000_0000_0000_0000
  {
    hide Pow2;
    SmallPowers();
    PowAdd(15, 16);
    PowAdd(16, 16);
    PowAdd(31, 32);
  }

  lemma SmallPowers()
    ensures Pow2(15) == 0x8000 && Pow2(16) == 0x1_0000
  {
    assert Pow2(8) == 0x100;
    PowAdd(8, 8);
  }

  lemma {:induction false} AndOnes(x: nat, width: nat)
    requires x < Pow2(width)
    ensures And(x, Not(0, width)) == x
    decreases width
  {
    if x > 0 {
      assert Not(0, width) == 2 * Not(0, width - 1) + 1;
      AndOnes(x / 2, width - 1);
    }
  }

  lemma HalvePower(a: nat)
    requires IsPowerOfTwo(a) && a != 1
    ensures a == 2 * (a / 2) && IsPowerOfTwo(a / 2) && a / 2 >= 1
  {
  }

  lemma DivTwice(x: nat, b: nat)
    requires b > 0
    ensures x / 2 / b == x / (2 * b)
  {
    var q, r := x / 2 / b, x / 2 % b;
    assert x / 2 == q * b + r;
    var m := 2 * r + x % 2;
    assert x == q * (2 * b) + m && m < 2 * b;
    DivUnique(x, 2 * b, q, m);
    assert x == x / (2 * b) * (2 * b) + m;
    SameFactor(q, x / (2 * b), 2 * b);
  }

  lemma SameFactor(p: nat, q: nat, n: nat)
    requires n > 0 && p * n == q * n
    ensures p == q
  {
  }

  /** Masking with the complement of `a - 1` rounds down to a multiple of the power of two `a`. */
  lemma {:induction false} MaskRounds(x: nat, a: nat, width: nat)
    requires IsPowerOfTwo(a) && a <= Pow2(width) && x < Pow2(width)
    ensures And(x, Not(a - 1, width)) == x / a * a
    decreases width
  {
    hide And, Not;
    if a == 1 {
      AndOnes(x, width);
    } else {
      var b := a / 2;
      HalvePower(a);
      MaskRounds(x / 2, b, width - 1);
      MaskHalves(a, b, width);
      AndEven(x, Not(b - 1, width - 1));
      DivTwice(x, b);
      Doubled(x / a, a, b);
    }
  }

  lemma AndEven(x: nat, y: nat)
    ensures And(x, 2 * y) == 2 * And(x / 2, y)
  {
  }

  lemma MaskHalves(a: nat, b: nat, width: nat)
    requires a == 2 * b && b > 0 && a <= Pow2(width)
    ensures width > 0 && b <= Pow2(width - 1) && Not(a - 1, width) == 2 * Not(b - 1, width - 1)
  {
  }

  lemma Doubled(q: nat, a: nat, b: nat)
    requires a == 2 * b
    ensures q * a == 2 * (q * b)
  {
  }

  /** The masked sum that the code computes is the least aligned address, unless the sum wraps around. */
  lemma MaskAligns(x: nat, a: nat)
    requires IsPowerOfTwo(a) && x + a <= Pow2(64)
    ensures And(x + a - 1, Not(a - 1, 64)) == AlignUp(x, a)
  {
    hide Pow2, And, Not;
    MaskRounds(x + a - 1, a, 64);
  }
}
