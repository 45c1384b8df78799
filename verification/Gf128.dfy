/**
 * Multiplication of 16-byte blocks, bit by bit, and what it means: the product of polynomials over the field of two
 * elements modulo X^128 + X^7 + X^2 + X + 1, the highest bit of the first byte being the coefficient of X^0
 * (NIST SP 800-38D, section 6.3).
 */
module Gf128 {
  import opened Polynomials

  type byte = bv8
  type Block = s: seq<byte> | |s| == 16 witness [0, 0, 0, 0, 0, 0, 0, 0, 0, 0, 0, 0, 0, 0, 0, 0]

  // ------------------------------------------------------------------------------- bits of a byte

  function Mask(k: nat): byte
    requires k < 8
  {
    match k
    case 0 => 0x80
    case 1 => 0x40
    case 2 => 0x20
    case 3 => 0x10
    case 4 => 8
    case 5 => 4
    case 6 => 2
    case _ => 1
  }

  /** Bit k of a byte, the highest bit first. */
  predicate BitOf(b: byte, k: nat)
    requires k < 8
  {
    b & Mask(k) != 0
  }

  /** The program's way to read a bit: shift it down and mask it. */
  lemma ShiftedBit(b: byte, k: nat)
    requires k < 8
    ensures BitOf(b, k) <==> (b >> (7 - k)) & 1 == 1
  {
    if k < 4 {
      ShiftedHighBit(b, k);
    } else {
      ShiftedLowBit(b, k);
    }
  }

  lemma ShiftedHighBit(b: byte, k: nat)
    requires k < 4
    ensures BitOf(b, k) <==> (b >> (7 - k)) & 1 == 1
  {
    match k
    case 0 => assert b & 0x80 != 0 <==> (b >> 7) & 1 == 1;
    case 1 => assert b & 0x40 != 0 <==> (b >> 6) & 1 == 1;
    case 2 => assert b & 0x20 != 0 <==> (b >> 5) & 1 == 1;
    case _ => assert b & 0x10 != 0 <==> (b >> 4) & 1 == 1;
  }

  lemma ShiftedLowBit(b: byte, k: nat)
    requires 4 <= k < 8
    ensures BitOf(b, k) <==> (b >> (7 - k)) & 1 == 1
  {
    match k
    case 4 => assert b & 8 != 0 <==> (b >> 3) & 1 == 1;
    case 5 => assert b & 4 != 0 <==> (b >> 2) & 1 == 1;
    case 6 => assert b & 2 != 0 <==> (b >> 1) & 1 == 1;
    case _ => assert b & 1 != 0 <==> (b >> 0) & 1 == 1;
  }

  lemma XorBit(a: byte, b: byte, k: nat)
    requires k < 8
    ensures BitOf(a ^ b, k) <==> BitOf(a, k) != BitOf(b, k)
  {
    MaskIsPower(k);
    XorMask(a, b, Mask(k));
  }

  lemma MaskIsPower(k: nat)
    requires k < 8
    ensures Mask(k) & (Mask(k) - 1) == 0
  {
  }

  lemma XorMask(a: byte, b: byte, m: byte)
    requires m & (m - 1) == 0
    ensures (a ^ b) & m != 0 <==> (a & m != 0) != (b & m != 0)
  {
  }

  /** Moving down one place takes in the lowest bit of the byte before. */
  lemma CarriedBit(a: byte, b: byte, k: nat)
    requires k < 8
    ensures BitOf((b >> 1) | (a << 7), k) <==> if k == 0 then BitOf(a, 7) else BitOf(b, k - 1)
  {
    var c := (b >> 1) | (a << 7);
    match k
    case 0 => assert c & 0x80 != 0 <==> a & 1 != 0;
    case 1 => assert c & 0x40 != 0 <==> b & 0x80 != 0;
    case 2 => assert c & 0x20 != 0 <==> b & 0x40 != 0;
    case 3 => assert c & 0x10 != 0 <==> b & 0x20 != 0;
    case 4 => assert c & 8 != 0 <==> b & 0x10 != 0;
    case 5 => assert c & 4 != 0 <==> b & 8 != 0;
    case 6 => assert c & 2 != 0 <==> b & 4 != 0;
    case _ => assert c & 1 != 0 <==> b & 2 != 0;
  }

  lemma ByteOfBits(a: byte, b: byte)
    requires forall k :: 0 <= k < 8 ==> BitOf(a, k) == BitOf(b, k)
    ensures a == b
  {
    assert BitOf(a, 0) == BitOf(b, 0) && BitOf(a, 1) == BitOf(b, 1) && BitOf(a, 2) == BitOf(b, 2);
    assert BitOf(a, 3) == BitOf(b, 3) && BitOf(a, 4) == BitOf(b, 4) && BitOf(a, 5) == BitOf(b, 5);
    assert BitOf(a, 6) == BitOf(b, 6) && BitOf(a, 7) == BitOf(b, 7);
    SameBits(a, b);
  }

  lemma SameBits(a: byte, b: byte)
    requires (a & 0x80 != 0) == (b & 0x80 != 0) && (a & 0x40 != 0) == (b & 0x40 != 0)
    requires (a & 0x20 != 0) == (b & 0x20 != 0) && (a & 0x10 != 0) == (b & 0x10 != 0)
    requires (a & 8 != 0) == (b & 8 != 0) && (a & 4 != 0) == (b & 4 != 0)
    requires (a & 2 != 0) == (b & 2 != 0) && (a & 1 != 0) == (b & 1 != 0)
    ensures a == b
  {
  }

  // ------------------------------------------------------------------------------- blocks as polynomials

  predicate BlockBit(b: Block, i: nat)
    requires i < 128
  {
    BitOf(b[i / 8], i % 8)
  }

  ghost function Coefficients(b: Block): (p: Poly)
    ensures Below(p, 128)
  {
    set i: nat | i < 128 && BlockBit(b, i)
  }

  function Xor(a: Block, b: Block): Block {
    seq(16, j requires 0 <= j < 16 => a[j] ^ b[j])
  }

  lemma XorIsPlus(a: Block, b: Block)
    ensures Coefficients(Xor(a, b)) == Plus(Coefficients(a), Coefficients(b))
  {
    forall i: nat | i < 128
      ensures BlockBit(Xor(a, b), i) <==> BlockBit(a, i) != BlockBit(b, i)
    {
      XorBit(a[i / 8], b[i / 8], i % 8);
    }
  }

  lemma BlockOfCoefficients(a: Block, b: Block)
    requires Coefficients(a) == Coefficients(b)
    ensures a == b
  {
    forall j: nat | j < 16
      ensures a[j] == b[j]
    {
      forall k: nat | k < 8
        ensures BitOf(a[j], k) == BitOf(b[j], k)
      {
        var i := 8 * j + k;
        assert i / 8 == j && i % 8 == k;
        assert i in Coefficients(a) <==> i in Coefficients(b);
      }
      ByteOfBits(a[j], b[j]);
    }
  }

  /** The block moved down one bit; what falls out at the end comes back as 0xe1 at the front. */
  function Doubled(v: Block): Block {
    seq(16, j requires 0 <= j < 16 => if j > 0 then Carry(v[j - 1], v[j]) else Reduce(v[0], v[15]))
  }

  function Carry(before: byte, b: byte): byte {
    (b >> 1) | (before << 7)
  }

  function Reduce(b: byte, last: byte): byte {
    if last & 1 != 0 then (b >> 1) ^ 0xe1 else b >> 1
  }

  lemma FirstByte(b: byte, k: nat)
    requires k < 8
    ensures BitOf(b >> 1, k) <==> k > 0 && BitOf(b, k - 1)
    ensures BitOf((b >> 1) ^ 0xe1, k) <==> (k > 0 && BitOf(b, k - 1)) != (k in {0, 1, 2, 7})
  {
    CarriedBit(0, b, k);
    assert (b >> 1) | (0 << 7) == b >> 1;
    XorBit(b >> 1, 0xe1, k);
  }

  lemma DoubledBit(v: Block, i: nat)
    requires i < 128
    ensures BlockBit(Doubled(v), i) <==> (i > 0 && BlockBit(v, i - 1)) != (BlockBit(v, 127) && i in {0, 1, 2, 7})
  {
    hide BitOf;
    if i < 8 {
      FirstByteBit(v, i);
    } else {
      CarriedBit(v[i / 8 - 1], v[i / 8], i % 8);
      assert i % 8 == 0 ==> (i - 1) / 8 == i / 8 - 1 && (i - 1) % 8 == 7;
      assert i % 8 > 0 ==> (i - 1) / 8 == i / 8 && (i - 1) % 8 == i % 8 - 1;
    }
  }

  lemma FirstByteBit(v: Block, i: nat)
    requires i < 8
    ensures BlockBit(Doubled(v), i) <==> (i > 0 && BlockBit(v, i - 1)) != (BlockBit(v, 127) && i in {0, 1, 2, 7})
  {
    hide BitOf;
    FirstByte(v[0], i);
    LastBit(v[15]);
    hide BitOf;
  }

  lemma LastBit(b: byte)
    ensures BitOf(b, 7) <==> b & 1 != 0
  {
  }

  lemma CoefficientIs(b: Block, i: nat)
    ensures i in Coefficients(b) <==> i < 128 && BlockBit(b, i)
  {
  }

  /** What the modulus leaves of a single term, and of none. */
  lemma SmallMultiples()
    ensures Multiple({0}) == {128, 7, 2, 1, 0} && Multiple({}) == {}
  {
  }

  /** The exponents in which the doubled block differs from the product with X. */
  lemma DoubledMember(v: Block, i: nat)
    ensures (i in Coefficients(Doubled(v))) != (i in Shift(Coefficients(v), 1)) <==>
            BlockBit(v, 127) && i in {128, 7, 2, 1, 0}
  {
    hide Doubled, BlockBit, Coefficients;
    CoefficientIs(Doubled(v), i);
    if i > 0 {
      CoefficientIs(v, i - 1);
    }
    if i < 128 {
      DoubledBit(v, i);
    }
  }

  /** One step multiplies by X. */
  lemma DoubledIsShift(v: Block)
    ensures Cong(Coefficients(Doubled(v)), Shift(Coefficients(v), 1))
  {
    hide BlockBit, Coefficients, Doubled, Shift, Multiple;
    var d, s := Coefficients(Doubled(v)), Shift(Coefficients(v), 1);
    SmallMultiples();
    hide Doubled, BlockBit, Multiple, Coefficients, Shift;
    forall i: nat
      ensures (i in d) != (i in s) <==> BlockBit(v, 127) && i in {128, 7, 2, 1, 0}
    {
      DoubledMember(v, i);
    }
    assert Plus(d, s) == Multiple(if BlockBit(v, 127) then {0} else {});
  }

  // ------------------------------------------------------------------------------- the product

  function Times(y: Block, i: nat): Block {
    if i == 0 then y else Doubled(Times(y, i - 1))
  }

  const ZERO: Block := [0, 0, 0, 0, 0, 0, 0, 0, 0, 0, 0, 0, 0, 0, 0, 0]

  /** The sum of the multiples of y that the first i bits of x select. */
  function Selected(x: Block, y: Block, i: nat): Block
    requires i <= 128
  {
    if i == 0 then ZERO
    else
      var z := Selected(x, y, i - 1);
      if BlockBit(x, i - 1) then Xor(z, Times(y, i - 1)) else z
  }

  function Mul(x: Block, y: Block): Block {
    Selected(x, y, 128)
  }

  lemma {:induction false} TimesIsShift(y: Block, i: nat)
    ensures Cong(Coefficients(Times(y, i)), Shift(Coefficients(y), i))
  {
    hide Doubled, Shift, Cong;
    var p := Coefficients(y);
    if i == 0 {
      assert Shift(p, 0) == p;
      CongRefl(p);
    } else {
      hide Doubled, Coefficients;
      TimesIsShift(y, i - 1);
      ShiftStep(Times(y, i - 1), Shift(p, i - 1));
      ShiftShift(p, i - 1, 1);
    }
  }

  lemma ShiftStep(v: Block, s: Poly)
    requires Cong(Coefficients(v), s)
    ensures Cong(Coefficients(Doubled(v)), Shift(s, 1))
  {
    hide Cong, Doubled, Coefficients, Plus;
    DoubledIsShift(v);
    CongShift(Coefficients(v), s);
    CongTrans(Coefficients(Doubled(v)), Shift(Coefficients(v), 1), Shift(s, 1));
  }

  lemma CongShift(a: Poly, b: Poly)
    requires Cong(a, b)
    ensures Cong(Shift(a, 1), Shift(b, 1))
  {
    CongProductLeft(a, b, {1});
    PowerTimes(a, 1);
    PowerTimes(b, 1);
  }

  lemma ZeroIsNothing()
    ensures Coefficients(ZERO) == {}
  {
    forall i: nat | i < 128
      ensures !BlockBit(ZERO, i)
    {
      assert 0 & Mask(i % 8) == 0;
    }
  }

  lemma {:induction false} SelectedIsPartial(x: Block, y: Block, i: nat)
    requires i <= 128
    ensures Cong(Coefficients(Selected(x, y, i)), Partial(Coefficients(x), Coefficients(y), i))
  {
    hide BlockBit, Xor, Times, Cong, Plus, Shift;
    if i == 0 {
      ZeroIsNothing();
      CongRefl({});
    } else {
      var p, q, z, v := Coefficients(x), Coefficients(y), Selected(x, y, i - 1), Times(y, i - 1);
      SelectedIsPartial(x, y, i - 1);
      assert i - 1 in p <==> BlockBit(x, i - 1);
      if BlockBit(x, i - 1) {
        TimesIsShift(y, i - 1);
        XorIsPlus(z, v);
        CongPlus(Coefficients(z), Partial(p, q, i - 1), Coefficients(v), Shift(q, i - 1));
      } else {
        PlusNothing(Partial(p, q, i - 1));
      }
    }
  }

  lemma PlusNothing(a: Poly)
    ensures Plus(a, {}) == a
  {
  }

  /** The product block is the product of the polynomials modulo X^128 + X^7 + X^2 + X + 1, fully reduced. */
  lemma MulIsProduct(x: Block, y: Block)
    ensures Cong(Coefficients(Mul(x, y)), Product(Coefficients(x), Coefficients(y)))
  {
    SelectedIsPartial(x, y, 128);
    ProductIs(Coefficients(x), Coefficients(y), 128);
  }

  /** A block is known by the residue its polynomial leaves. */
  lemma BlockOfResidue(a: Block, b: Block, p: Poly)
    requires Cong(Coefficients(a), p) && Cong(Coefficients(b), p)
    ensures a == b
  {
    CongSym(Coefficients(b), p);
    CongTrans(Coefficients(a), p, Coefficients(b));
    ResidueUnique(Coefficients(a), Coefficients(b));
    BlockOfCoefficients(a, b);
  }

  lemma MulCommutes(x: Block, y: Block)
    ensures Mul(x, y) == Mul(y, x)
  {
    MulIsProduct(x, y);
    MulIsProduct(y, x);
    ProductCommutes(Coefficients(x), Coefficients(y));
    BlockOfResidue(Mul(x, y), Mul(y, x), Product(Coefficients(x), Coefficients(y)));
  }

  lemma MulDistributes(x: Block, y: Block, z: Block)
    ensures Mul(Xor(x, y), z) == Xor(Mul(x, z), Mul(y, z))
  {
    hide Cong, Mul, Xor;
    var p, q, r := Coefficients(x), Coefficients(y), Coefficients(z);
    MulIsProduct(Xor(x, y), z);
    XorIsPlus(x, y);
    ProductPlus(r, p, q);
    MulIsProduct(x, z);
    MulIsProduct(y, z);
    XorIsPlus(Mul(x, z), Mul(y, z));
    CongPlus(Coefficients(Mul(x, z)), Product(p, r), Coefficients(Mul(y, z)), Product(q, r));
    BlockOfResidue(Mul(Xor(x, y), z), Xor(Mul(x, z), Mul(y, z)), Product(Plus(p, q), r));
  }

  lemma MulAssociates(x: Block, y: Block, z: Block)
    ensures Mul(Mul(x, y), z) == Mul(x, Mul(y, z))
  {
    hide Cong, Mul;
    var p, q, r := Coefficients(x), Coefficients(y), Coefficients(z);
    var xy, yz := Mul(x, y), Mul(y, z);
    MulIsProduct(x, y);
    MulIsProduct(xy, z);
    CongProductLeft(Coefficients(xy), Product(p, q), r);
    CongTrans(Coefficients(Mul(xy, z)), Product(Coefficients(xy), r), Product(Product(p, q), r));
    MulIsProduct(y, z);
    MulIsProduct(x, yz);
    CongProductLeft(Coefficients(yz), Product(q, r), p);
    ProductCommutes(p, Coefficients(yz));
    ProductCommutes(p, Product(q, r));
    CongTrans(Coefficients(Mul(x, yz)), Product(p, Coefficients(yz)), Product(p, Product(q, r)));
    ProductAssociates(p, q, r);
    BlockOfResidue(Mul(xy, z), Mul(x, yz), Product(p, Product(q, r)));
  }

  // ------------------------------------------------------------------------------- the loops

  /** Adds the bytes of v that the mask lets through. */
  method AddMasked(z: array<byte>, v: array<byte>, mask: byte)
    requires z.Length == v.Length == 16 && z != v && (mask == 0 || mask == 0xff)
    modifies z
    ensures z[..] == if mask == 0 then old(z[..]) else Xor(old(z[..]), v[..])
  {
    hide Masked;
    ghost var before: Block, adding: Block := z[..], v[..];
    for j := 0 to 16
      invariant forall k :: j <= k < 16 ==> z[k] == before[k]
      invariant forall k :: 0 <= k < j ==> z[k] == Masked(before[k], adding[k], mask)
    {
      z[j] := Masked(z[j], v[j], mask);
    }
    MaskedAll(before, adding, mask, z[..]);
  }

  function Masked(z: byte, v: byte, mask: byte): byte {
    z ^ (v & mask)
  }

  lemma MaskedAll(a: Block, b: Block, mask: byte, c: Block)
    requires mask == 0 || mask == 0xff
    requires forall k :: 0 <= k < 16 ==> c[k] == Masked(a[k], b[k], mask)
    ensures c == if mask == 0 then a else Xor(a, b)
  {
    hide Masked;
    forall k | 0 <= k < 16
      ensures c[k] == if mask == 0 then a[k] else a[k] ^ b[k]
    {
      MaskedByte(a[k], b[k], mask);
    }
  }

  lemma MaskedByte(z: byte, v: byte, mask: byte)
    requires mask == 0 || mask == 0xff
    ensures Masked(z, v, mask) == if mask == 0 then z else z ^ v
  {
  }

  /** Moves a block down one bit, from the last byte to the first. */
  method DoubleInPlace(v: array<byte>)
    requires v.Length == 16
    modifies v
    ensures v[..] == Doubled(old(v[..]))
  {
    var lsb := v[15] & 1;
    var j := 15;
    while j > 0
      invariant 0 <= j <= 15
      invariant forall k :: 0 <= k <= j ==> v[k] == old(v[k])
      invariant forall k :: j < k < 16 ==> v[k] == (old(v[k]) >> 1) | (old(v[k - 1]) << 7)
    {
      v[j] := (v[j] >> 1) | (v[j - 1] << 7);
      j := j - 1;
    }
    v[0] := v[0] >> 1;
    ReductionByte(v[0], old(v[15]));
    v[0] := v[0] ^ (0xe1 & (0 - lsb));
  }

  lemma ReductionByte(b: byte, last: byte)
    ensures b ^ (0xe1 & (0 - (last & 1))) == if last & 1 != 0 then b ^ 0xe1 else b
  {
    assert last & 1 == 0 || last & 1 == 1;
  }

  lemma MaskOfBit(b: byte, k: nat)
    requires k < 8
    ensures 0 - ((b >> (7 - k)) & 1) == if BitOf(b, k) then 0xff else 0
  {
    ShiftedBit(b, k);
    OneBit(b >> (7 - k));
  }

  lemma OneBit(b: byte)
    ensures 0 - (b & 1) == if b & 1 == 1 then 0xff else 0 as byte
  {
    assert b & 1 == 0 || b & 1 == 1;
  }

  /** The product, written over r, which may be x itself. */
  method Multiply(r: array<byte>, x: array<byte>, y: array<byte>)
    requires r.Length == x.Length == y.Length == 16
    modifies r
    ensures r[..] == Mul(old(x[..]), old(y[..]))
  {
    hide Doubled, Xor, BitOf;
    var z, v := new byte[16](_ => 0), new byte[16](_ => 0);
    forall j | 0 <= j < 16 {
      v[j] := y[j];
    }
    ghost var a: Block, b: Block := x[..], y[..];
    assert a == old(x[..]) && b == old(y[..]);
    assert z[..] == ZERO && v[..] == b;
    var i := 0;
    while i < 128
      invariant 0 <= i <= 128 && x[..] == a
      invariant v[..] == Times(b, i) && z[..] == Selected(a, b, i)
      modifies z, v
    {
      MaskOfBit(x[i / 8], i % 8);
      assert x[i / 8] == a[i / 8];
      var mask := 0 - ((x[i / 8] >> (7 - i % 8)) & 1);
      AddMasked(z, v, mask);
      DoubleInPlace(v);
      i := i + 1;
    }
    ghost var product := z[..];
    assert product == Mul(a, b);
    forall j | 0 <= j < 16 {
      r[j] := z[j];
    }
    assert r[..] == product;
  }
}
