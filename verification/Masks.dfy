/** Bitwise operations on 32-bit words, for selecting without branching. */
module Masks {
  import opened Arithmetic
  import opened Words

  function AndBits(x: nat, y: nat, n: nat): (z: nat)
    ensures z < Pow2(n)
  {
    if n == 0 then 0 else 2 * AndBits(x / 2, y / 2, n - 1) + x % 2 * (y % 2)
  }

  function OrBits(x: nat, y: nat, n: nat): (z: nat)
    ensures z < Pow2(n)
  {
    if n == 0 then 0 else 2 * OrBits(x / 2, y / 2, n - 1) + if x % 2 + y % 2 == 0 then 0 else 1
  }

  function XorBits(x: nat, y: nat, n: nat): (z: nat)
    ensures z < Pow2(n)
  {
    if n == 0 then 0 else 2 * XorBits(x / 2, y / 2, n - 1) + (x + y) % 2
  }

  lemma Pow2Of8()
    ensures Pow2(8) == 256
  {
    assert Pow2(4) == 16;
  }

  lemma Pow2Of32()
    ensures Pow2(32) == WORD
  {
    Pow2Of8();
    hide Pow2;
    Pow2Adds(8, 8);
    Pow2Adds(16, 16);
  }

  function And(x: uint32, y: uint32): uint32 {
    Pow2Of32();
    AndBits(x as nat, y as nat, 32) as uint32
  }

  function Or(x: uint32, y: uint32): uint32 {
    Pow2Of32();
    OrBits(x as nat, y as nat, 32) as uint32
  }

  function Xor(x: uint32, y: uint32): uint32 {
    Pow2Of32();
    XorBits(x as nat, y as nat, 32) as uint32
  }

  /** All ones for 1, all zeros for 0: the bit taken from zero, with wrap-around. */
  function Mask(bit: uint32): uint32
    requires bit <= 1
  {
    ((WORD - bit as nat) % WORD) as uint32
  }

  function Not(x: uint32): uint32 {
    0xffff_ffff - x
  }

  lemma {:induction false} AndOnes(x: nat, n: nat)
    requires x < Pow2(n)
    ensures AndBits(Pow2(n) - 1, x, n) == x == AndBits(x, Pow2(n) - 1, n)
    ensures AndBits(0, x, n) == 0 == AndBits(x, 0, n)
  {
    if n > 0 {
      AndOnes(x / 2, n - 1);
      assert (Pow2(n) - 1) / 2 == Pow2(n - 1) - 1 && (Pow2(n) - 1) % 2 == 1;
    }
  }

  lemma {:induction false} OrZero(x: nat, n: nat)
    requires x < Pow2(n)
    ensures OrBits(x, 0, n) == x == OrBits(0, x, n)
  {
    if n > 0 { OrZero(x / 2, n - 1); }
  }

  lemma {:induction false} XorCommutes(x: nat, y: nat, n: nat)
    ensures XorBits(x, y, n) == XorBits(y, x, n)
  {
    if n > 0 { XorCommutes(x / 2, y / 2, n - 1); }
  }

  lemma {:induction false} XorZero(x: nat, n: nat)
    requires x < Pow2(n)
    ensures XorBits(x, 0, n) == x
  {
    if n > 0 { XorZero(x / 2, n - 1); }
  }

  lemma {:induction false} XorCancels(x: nat, y: nat, n: nat)
    requires y < Pow2(n)
    ensures XorBits(x, XorBits(x, y, n), n) == y
  {
    if n > 0 {
      XorCancels(x / 2, y / 2, n - 1);
      var z := XorBits(x, y, n);
      LastBit(x, y, n);
      LastBit(x, z, n);
      Parity(x, y, z);
    }
  }

  lemma LastBit(x: nat, y: nat, n: nat)
    requires n > 0
    ensures var z := XorBits(x, y, n); z / 2 == XorBits(x / 2, y / 2, n - 1) && z % 2 == (x + y) % 2
  {
  }

  lemma Parity(x: nat, y: nat, z: nat)
    requires z % 2 == (x + y) % 2
    ensures (x + z) % 2 == y % 2
  {
  }

  /** The mask and exclusive-or idiom exchanges two words when the bit is set, and leaves them otherwise. */
  lemma MaskedExchange(x: uint32, y: uint32, bit: uint32)
    requires bit <= 1
    ensures Xor(x, And(Mask(bit), Xor(x, y))) == if bit == 1 then y else x
    ensures Xor(y, And(Mask(bit), Xor(x, y))) == if bit == 1 then x else y
  {
    hide AndBits, XorBits, Pow2;
    Pow2Of32();
    AndOnes(Xor(x, y) as nat, 32);
    XorCancels(x as nat, y as nat, 32);
    XorCommutes(x as nat, y as nat, 32);
    XorCancels(y as nat, x as nat, 32);
    XorZero(x as nat, 32);
    XorZero(y as nat, 32);
  }

  /** Two masked words and their or: the second word when the bit is set, the first otherwise. */
  lemma MaskedChoice(x: uint32, y: uint32, bit: uint32)
    requires bit <= 1
    ensures Or(And(x, Not(Mask(bit))), And(y, Mask(bit))) == if bit == 1 then y else x
  {
    hide AndBits, OrBits, Pow2;
    Pow2Of32();
    AndOnes(x as nat, 32);
    AndOnes(y as nat, 32);
    OrZero(x as nat, 32);
    OrZero(y as nat, 32);
  }
}
