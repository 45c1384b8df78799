/** Numbers spelled in bits, and bytes as the vectors that bitwise operations work on. */
module Bits {
  import opened Arithmetic
  import opened Words

  /** The lowest `width` bits of a number, the highest first. */
  function Uint(n: nat, width: nat): (b: seq<bool>)
    ensures |b| == width
  {
    if width == 0 then [] else Uint(n / 2, width - 1) + [n % 2 == 1]
  }

  function Number(b: seq<bool>): (n: nat)
    ensures n < Pow2(|b|)
  {
    if b == [] then 0 else 2 * Number(b[..|b| - 1]) + if b[|b| - 1] then 1 else 0
  }

  lemma {:induction false} NumberOfUint(n: nat, width: nat)
    requires n < Pow2(width)
    ensures Number(Uint(n, width)) == n
  {
    if width > 0 {
      NumberOfUint(n / 2, width - 1);
      assert Uint(n, width)[..width - 1] == Uint(n / 2, width - 1);
    }
  }

  lemma {:induction false} UintOfNumber(b: seq<bool>)
    ensures Uint(Number(b), |b|) == b
  {
    if b != [] {
      UintOfNumber(b[..|b| - 1]);
      assert b == b[..|b| - 1] + [b[|b| - 1]];
    }
  }

  /** Bit j of a number's lowest bits: what it is worth is halved from place to place. */
  lemma {:induction false} UintBit(n: nat, width: nat, j: nat)
    requires j < width
    ensures Uint(n, width)[j] == (n / Pow2(width - 1 - j) % 2 == 1)
  {
    if j < width - 1 {
      UintBit(n / 2, width - 1, j);
      DivideTwice(n, 2, Pow2(width - 2 - j));
    }
  }

  lemma BytePower()
    ensures Pow2(8) == 256 && Pow2(5) == 32
  {
    assert Pow2(4) == 16;
  }

  // ------------------------------------------------------------------------------- bytes as vectors

  function Vector(b: seq<bool>): bv8
    requires |b| == 8
  {
    (if b[0] then 0x80 else 0) | (if b[1] then 0x40 else 0) | (if b[2] then 0x20 else 0) | (if b[3] then 0x10 else 0)
    | (if b[4] then 8 else 0) | (if b[5] then 4 else 0) | (if b[6] then 2 else 0) | (if b[7] then 1 else 0)
  }

  function OfVector(x: bv8): (b: seq<bool>)
    ensures |b| == 8
  {
    [x & 0x80 != 0, x & 0x40 != 0, x & 0x20 != 0, x & 0x10 != 0, x & 8 != 0, x & 4 != 0, x & 2 != 0, x & 1 != 0]
  }

  lemma VectorBack(x: bv8)
    ensures Vector(OfVector(x)) == x
  {
  }

  lemma VectorThere(b: seq<bool>)
    requires |b| == 8
    ensures OfVector(Vector(b)) == b
  {
  }

  function WordOf(x: bv8): uint8 {
    BytePower();
    Number(OfVector(x)) as uint8
  }

  function VectorOf(w: uint8): bv8 {
    Vector(Uint(w as nat, 8))
  }

  lemma SameVector(x: bv8)
    ensures VectorOf(WordOf(x)) == x
  {
    hide Vector, OfVector, Uint, Number;
    UintOfNumber(OfVector(x));
    VectorBack(x);
  }

  lemma SameWord(w: uint8)
    ensures WordOf(VectorOf(w)) == w
  {
    hide Vector, OfVector, Uint, Number;
    BytePower();
    VectorThere(Uint(w as nat, 8));
    NumberOfUint(w as nat, 8);
  }

  lemma WordOfIs(x: bv8)
    ensures WordOf(x) as nat == x as nat
  {
    hide Number;
    EightBits(OfVector(x));
  }

  lemma EightBits(b: seq<bool>)
    requires |b| == 8
    ensures Number(b) == (if b[0] then 128 else 0) + (if b[1] then 64 else 0) + (if b[2] then 32 else 0) + (if b[3] then 16 else 0)
                         + (if b[4] then 8 else 0) + (if b[5] then 4 else 0) + (if b[6] then 2 else 0) + (if b[7] then 1 else 0)
  {
    FourBits(b[..4]);
    assert b[..7][..6] == b[..6] && b[..6][..5] == b[..5] && b[..5][..4] == b[..4];
    assert Number(b) == 2 * Number(b[..7]) + if b[7] then 1 else 0;
    assert Number(b[..7]) == 2 * Number(b[..6]) + if b[6] then 1 else 0;
    assert Number(b[..6]) == 2 * Number(b[..5]) + if b[5] then 1 else 0;
  }

  lemma FourBits(b: seq<bool>)
    requires |b| == 4
    ensures Number(b) == (if b[0] then 8 else 0) + (if b[1] then 4 else 0) + (if b[2] then 2 else 0) + (if b[3] then 1 else 0)
  {
    assert b[..3][..2] == b[..2] && b[..2][..1] == b[..1] && b[..1][..0] == [];
    assert Number(b) == 2 * Number(b[..3]) + if b[3] then 1 else 0;
    assert Number(b[..3]) == 2 * Number(b[..2]) + if b[2] then 1 else 0;
    assert Number(b[..2]) == 2 * Number(b[..1]) + if b[1] then 1 else 0;
  }

  function WordsOf(data: seq<bv8>): (w: seq<uint8>)
    ensures |w| == |data|
  {
    seq(|data|, i requires 0 <= i < |data| => WordOf(data[i]))
  }

  function VectorsOf(w: seq<uint8>): (data: seq<bv8>)
    ensures |data| == |w|
  {
    seq(|w|, i requires 0 <= i < |w| => VectorOf(w[i]))
  }

  lemma VectorsAndBack(data: seq<bv8>)
    ensures VectorsOf(WordsOf(data)) == data
  {
    hide WordOf, VectorOf;
    forall i | 0 <= i < |data|
      ensures VectorsOf(WordsOf(data))[i] == data[i]
    {
      SameVector(data[i]);
    }
  }

  lemma WordsAndBack(w: seq<uint8>)
    ensures WordsOf(VectorsOf(w)) == w
  {
    hide WordOf, VectorOf;
    forall i | 0 <= i < |w|
      ensures WordsOf(VectorsOf(w))[i] == w[i]
    {
      SameWord(w[i]);
    }
  }
}
