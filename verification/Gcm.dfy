/**
 * Galois/counter mode (NIST SP 800-38D, sections 6.2 to 6.5 and 7) over a block cipher that stays abstract: `cipher` is
 * the cipher under the key in use.
 */
module Gcm {
  import opened Status
  import opened Arithmetic
  import opened Words
  import opened Bits
  import opened Polynomials
  import opened Gf128

  // ------------------------------------------------------------------------------- GHASH

  function Padded(data: seq<byte>): (b: Block)
    requires |data| <= 16
    ensures b[..|data|] == data && forall k :: |data| <= k < 16 ==> b[k] == 0
  {
    data + seq(16 - |data|, _ => 0 as byte)
  }

  /** The data in blocks of 16 bytes, the last one padded with zeros. */
  function Blocks(data: seq<byte>): seq<Block> {
    if |data| == 0 then []
    else if |data| < 16 then [Padded(data)]
    else [data[..16]] + Blocks(data[16..])
  }

  function Digest(y: Block, h: Block, blocks: seq<Block>): Block
    decreases |blocks|
  {
    if blocks == [] then y else Digest(Mul(Xor(y, blocks[0]), h), h, blocks[1..])
  }

  function LengthByte(bits: nat, i: nat): byte
    requires i < 8
  {
    VectorOf((bits / Pow256(7 - i) % 256) as uint8)
  }

  /** Two 64-bit counts of bits, the highest byte first; counts wrap. */
  function Lengths(aad: nat, data: nat): Block {
    seq(16, i requires 0 <= i < 16 =>
      if i < 8 then LengthByte(aad * 8 % Pow256(8), i) else LengthByte(data * 8 % Pow256(8), i - 8))
  }

  function Ghash(h: Block, aad: seq<byte>, data: seq<byte>): Block {
    Digest(ZERO, h, Blocks(aad) + Blocks(data) + [Lengths(|aad|, |data|)])
  }

  lemma {:induction false} DigestAppend(y: Block, h: Block, a: seq<Block>, b: seq<Block>)
    ensures Digest(y, h, a + b) == Digest(Digest(y, h, a), h, b)
    decreases |a|
  {
    if a == [] {
      assert a + b == b;
    } else {
      DigestAppend(Mul(Xor(y, a[0]), h), h, a[1..], b);
      assert (a + b)[1..] == a[1..] + b;
    }
  }

  const ONE: Block := [0x80, 0, 0, 0, 0, 0, 0, 0, 0, 0, 0, 0, 0, 0, 0, 0]

  function Raised(h: Block, n: nat): Block {
    if n == 0 then ONE else Mul(Raised(h, n - 1), h)
  }

  /** The polynomial whose coefficients are the blocks, without a constant term, at h. */
  function Evaluate(h: Block, blocks: seq<Block>): Block {
    if blocks == [] then ZERO else Xor(Mul(blocks[0], Raised(h, |blocks|)), Evaluate(h, blocks[1..]))
  }

  lemma OneIsOne(x: Block)
    ensures Mul(x, ONE) == x
  {
    forall i: nat | i < 128
      ensures BlockBit(ONE, i) <==> i == 0
    {
      var m := Mask(i % 8);
      assert i / 8 == 0 ==> ONE[i / 8] == 0x80;
      assert i / 8 > 0 ==> ONE[i / 8] == 0;
      assert 0 & m == 0;
    }
    assert Coefficients(ONE) == {0};
    MulIsProduct(x, ONE);
    ProductCommutes(Coefficients(x), {0});
    ProductOne(Coefficients(x));
    CongRefl(Coefficients(x));
    BlockOfResidue(Mul(x, ONE), x, Coefficients(x));
  }

  lemma MulZero(x: Block)
    ensures Mul(ZERO, x) == ZERO
  {
    MulIsProduct(ZERO, x);
    ZeroIsNothing();
    ProductNothing(Coefficients(x));
    CongRefl({});
    BlockOfResidue(Mul(ZERO, x), ZERO, {});
  }

  lemma XorLaws(a: Block, b: Block, c: Block)
    ensures Xor(Xor(a, b), c) == Xor(a, Xor(b, c)) && Xor(ZERO, a) == a
  {
    assert forall j :: 0 <= j < 16 ==> ZERO[j] == 0;
  }

  lemma {:induction false} RaisedLeft(h: Block, n: nat)
    ensures Mul(h, Raised(h, n)) == Raised(h, n + 1)
  {
    hide Mul;
    MulCommutes(h, Raised(h, n));
  }

  lemma {:induction false} DigestEvaluates(y: Block, h: Block, blocks: seq<Block>)
    ensures Digest(y, h, blocks) == Xor(Mul(y, Raised(h, |blocks|)), Evaluate(h, blocks))
    decreases |blocks|
  {
    hide Mul, Xor;
    if blocks == [] {
      OneIsOne(y);
      XorNothing(y);
    } else {
      var b, rest, n := blocks[0], blocks[1..], |blocks|;
      var p := Raised(h, n - 1);
      DigestEvaluates(Mul(Xor(y, b), h), h, rest);
      MulAssociates(Xor(y, b), h, p);
      RaisedLeft(h, n - 1);
      MulDistributes(y, b, Raised(h, n));
      XorLaws(Mul(y, Raised(h, n)), Mul(b, Raised(h, n)), Evaluate(h, rest));
    }
  }

  lemma XorNothing(y: Block)
    ensures Xor(y, ZERO) == y
  {
    assert forall j :: 0 <= j < 16 ==> ZERO[j] == 0;
  }

  /** NIST SP 800-38D, section 6.4: the digest is X1 H^m + X2 H^(m-1) + ... + Xm H over the padded data and lengths. */
  lemma GhashIsPolynomial(h: Block, aad: seq<byte>, data: seq<byte>)
    ensures Ghash(h, aad, data) == Evaluate(h, Blocks(aad) + Blocks(data) + [Lengths(|aad|, |data|)])
  {
    hide Mul, Xor;
    var blocks := Blocks(aad) + Blocks(data) + [Lengths(|aad|, |data|)];
    DigestEvaluates(ZERO, h, blocks);
    MulZero(Raised(h, |blocks|));
    XorLaws(Evaluate(h, blocks), ZERO, ZERO);
  }

  // ------------------------------------------------------------------------------- the counter

  function Bump(b: Block, i: nat): Block
    requires 11 <= i < 16
    decreases i
  {
    if i == 11 then b
    else
      var v := b[i] + 1;
      if v != 0 then b[i := v] else Bump(b[i := v], i - 1)
  }

  function Inc32(b: Block): Block {
    Bump(b, 15)
  }

  function Word(a: nat, b: nat, c: nat, d: nat): nat {
    ((a * 256 + b) * 256 + c) * 256 + d
  }

  /** The number in the last four bytes. */
  function Counter(b: Block): nat {
    Word(b[12] as nat, b[13] as nat, b[14] as nat, b[15] as nat)
  }

  /** A byte wraps exactly at 255. */
  lemma WrapsAt255(b: byte)
    ensures b as nat < 256 && (b + 1 == 0 <==> b as nat == 255)
  {
  }

  /** A byte stepped on when there is a carry, as a number. */
  lemma NextByte(b: byte, carry: bool)
    ensures (if carry then b + 1 else b) as nat == if carry then (b as nat + 1) % 256 else b as nat
  {
  }

  /** A step on four numbers: one goes up when all behind it fall to 0. */
  lemma WordCounts(a: nat, b: nat, c: nat, d: nat)
    requires a < 256 && b < 256 && c < 256 && d < 256
    ensures (Word(a, b, c, d) + 1) % 0x1_0000_0000
         == Word(if b == 255 && c == 255 && d == 255 then (a + 1) % 256 else a,
                 if c == 255 && d == 255 then (b + 1) % 256 else b, if d == 255 then (c + 1) % 256 else c, (d + 1) % 256)
  {
  }

  /** One is added to the number in the last four bytes, modulo 2^32; the other bytes stay. */
  lemma Inc32Counts(b: Block)
    ensures Counter(Inc32(b)) == (Counter(b) + 1) % 0x1_0000_0000
    ensures Inc32(b)[..12] == b[..12]
  {
    hide Inc32, Word;
    Inc32Keeps(b);
    Inc32Numbers(b);
    WordCounts(b[12] as nat, b[13] as nat, b[14] as nat, b[15] as nat);
  }

  lemma Inc32Numbers(b: Block)
    ensures var c, p, q, r, s := Inc32(b), b[12] as nat, b[13] as nat, b[14] as nat, b[15] as nat;
            && p < 256 && q < 256 && r < 256 && s < 256
            && c[15] as nat == (s + 1) % 256
            && c[14] as nat == (if s == 255 then (r + 1) % 256 else r)
            && c[13] as nat == (if r == 255 && s == 255 then (q + 1) % 256 else q)
            && c[12] as nat == (if q == 255 && r == 255 && s == 255 then (p + 1) % 256 else p)
  {
    hide Inc32;
    Inc32Bytes(b);
    WrapsAt255(b[12]);
    WrapsAt255(b[13]);
    WrapsAt255(b[14]);
    WrapsAt255(b[15]);
    var second, third, fourth := b[15] + 1 == 0, b[15] + 1 == 0 && b[14] + 1 == 0, b[15] + 1 == 0 && b[14] + 1 == 0 && b[13] + 1 == 0;
    NextByte(b[15], true);
    NextByte(b[14], second);
    NextByte(b[13], third);
    NextByte(b[12], fourth);
  }

  lemma Inc32Keeps(b: Block)
    ensures Inc32(b)[..12] == b[..12]
  {
  }

  lemma Inc32Bytes(b: Block)
    ensures var c := Inc32(b);
            && c[15] == b[15] + 1
            && c[14] == (if b[15] + 1 == 0 then b[14] + 1 else b[14])
            && c[13] == (if b[15] + 1 == 0 && b[14] + 1 == 0 then b[13] + 1 else b[13])
            && c[12] == (if b[15] + 1 == 0 && b[14] + 1 == 0 && b[13] + 1 == 0 then b[12] + 1 else b[12])
  {
  }

  lemma WordBound(a: nat, b: nat, c: nat, d: nat)
    requires a < 256 && b < 256 && c < 256 && d < 256
    ensures Word(a, b, c, d) < 0x1_0000_0000
  {
  }

  function Stepped(b: Block, n: nat): Block {
    if n == 0 then b else Inc32(Stepped(b, n - 1))
  }

  lemma {:induction false} SteppedCounts(b: Block, n: nat)
    ensures Counter(Stepped(b, n)) == (Counter(b) + n) % 0x1_0000_0000
  {
    hide Counter, Inc32;
    if n > 0 {
      SteppedCounts(b, n - 1);
      Inc32Counts(Stepped(b, n - 1));
    } else {
      CounterBound(b);
    }
  }

  lemma CounterBound(b: Block)
    ensures Counter(b) < 0x1_0000_0000
  {
    hide Word;
    WrapsAt255(b[12]);
    WrapsAt255(b[13]);
    WrapsAt255(b[14]);
    WrapsAt255(b[15]);
    WordBound(b[12] as nat, b[13] as nat, b[14] as nat, b[15] as nat);
  }

  /** Fewer than 2^32 steps never come back to a counter block already used, the one kept for the tag included. */
  lemma CountersDiffer(b: Block, m: nat, n: nat)
    requires m < n < m + 0x1_0000_0000
    ensures Stepped(b, m) != Stepped(b, n)
  {
    SteppedCounts(b, m);
    SteppedCounts(b, n);
  }

  // ------------------------------------------------------------------------------- counter mode

  /** Exclusive or with the first bytes of a block of key stream. */
  function Mixed(data: seq<byte>, key: Block): (r: seq<byte>)
    requires |data| <= 16
    ensures |r| == |data| && forall k :: 0 <= k < |r| ==> r[k] == data[k] ^ key[k]
  {
    seq(|data|, k requires 0 <= k < |data| => data[k] ^ key[k])
  }

  function Ctr(cipher: Block -> Block, c: Block, data: seq<byte>): (r: seq<byte>)
    ensures |r| == |data|
    decreases |data|
  {
    if data == [] then []
    else
      var take := if |data| < 16 then |data| else 16;
      Mixed(data[..take], cipher(Inc32(c))) + Ctr(cipher, Inc32(c), data[take..])
  }

  lemma CtrStep(cipher: Block -> Block, c: Block, data: seq<byte>)
    ensures data == [] ==> Ctr(cipher, c, data) == []
    ensures data != [] ==>
      var take := if |data| < 16 then |data| else 16;
      Ctr(cipher, c, data) == Mixed(data[..take], cipher(Inc32(c))) + Ctr(cipher, Inc32(c), data[take..])
  {
  }

  lemma XorTwice(a: byte, b: byte)
    ensures (a ^ b) ^ b == a
  {
  }

  lemma MixedTwice(data: seq<byte>, key: Block)
    requires |data| <= 16
    ensures Mixed(Mixed(data, key), key) == data
  {
    forall k | 0 <= k < |data|
      ensures (data[k] ^ key[k]) ^ key[k] == data[k]
    {
      XorTwice(data[k], key[k]);
    }
  }

  /** Counter mode undoes itself. */
  lemma {:induction false} CtrTwice(cipher: Block -> Block, c: Block, data: seq<byte>)
    ensures Ctr(cipher, c, Ctr(cipher, c, data)) == data
    decreases |data|
  {
    if data != [] {
      hide Inc32, Mixed;
      var take := if |data| < 16 then |data| else 16;
      var key := cipher(Inc32(c));
      var head, tail := Mixed(data[..take], key), Ctr(cipher, Inc32(c), data[take..]);
      var once := head + tail;
      assert Ctr(cipher, c, data) == once && once[..take] == head && once[take..] == tail;
      MixedTwice(data[..take], key);
      CtrTwice(cipher, Inc32(c), data[take..]);
      assert Ctr(cipher, c, once) == Mixed(head, key) + Ctr(cipher, Inc32(c), tail);
      assert data[..take] + data[take..] == data;
    }
  }

  lemma {:induction false} SteppedFirst(c: Block, n: nat)
    ensures Stepped(Inc32(c), n) == Stepped(c, n + 1)
  {
    if n > 0 {
      SteppedFirst(c, n - 1);
    } else {
      assert Stepped(c, 0) == c;
    }
  }

  /** Block n of the text, counted from 0, is mixed with the cipher of the counter n + 1 steps on. */
  lemma {:induction false} CtrAt(cipher: Block -> Block, c: Block, data: seq<byte>, i: nat)
    requires i < |data|
    ensures Ctr(cipher, c, data)[i] == data[i] ^ cipher(Stepped(c, i / 16 + 1))[i % 16]
    decreases i
  {
    hide Inc32, Ctr, Mixed;
    CtrStep(cipher, c, data);
    if i < 16 {
      assert Stepped(c, 1) == Inc32(Stepped(c, 0));
    } else {
      CtrAt(cipher, Inc32(c), data[16..], i - 16);
      SteppedFirst(c, (i - 16) / 16 + 1);
      assert (i - 16) / 16 + 1 == i / 16 && (i - 16) % 16 == i % 16;
    }
  }

  // ------------------------------------------------------------------------------- sealing

  function FirstCounter(h: Block, nonce: seq<byte>): Block {
    if |nonce| == 12 then nonce + [0, 0, 0, 1] else Ghash(h, [], nonce)
  }

  datatype Sealed = Sealed(ciphertext: seq<byte>, tag: Block)

  function Tag(cipher: Block -> Block, nonce: seq<byte>, aad: seq<byte>, ciphertext: seq<byte>): Block {
    var h := cipher(ZERO);
    Xor(Ghash(h, aad, ciphertext), cipher(FirstCounter(h, nonce)))
  }

  function Seal(cipher: Block -> Block, nonce: seq<byte>, aad: seq<byte>, plaintext: seq<byte>): Sealed {
    var c := Ctr(cipher, FirstCounter(cipher(ZERO), nonce), plaintext);
    Sealed(c, Tag(cipher, nonce, aad, c))
  }

  datatype Opened = Refused | Plain(text: seq<byte>)

  function Open(cipher: Block -> Block, nonce: seq<byte>, aad: seq<byte>, box: Sealed): Opened {
    if Tag(cipher, nonce, aad, box.ciphertext) != box.tag then Refused
    else Plain(Ctr(cipher, FirstCounter(cipher(ZERO), nonce), box.ciphertext))
  }

  /** A box opens to a text exactly when it is the box that sealing this text makes. */
  lemma OpensIffSealed(cipher: Block -> Block, nonce: seq<byte>, aad: seq<byte>, box: Sealed, text: seq<byte>)
    ensures Open(cipher, nonce, aad, box) == Plain(text) <==> Seal(cipher, nonce, aad, text) == box
  {
    hide Tag, FirstCounter, Ctr;
    var c := FirstCounter(cipher(ZERO), nonce);
    CtrTwice(cipher, c, box.ciphertext);
    CtrTwice(cipher, c, text);
  }

  // ------------------------------------------------------------------------------- the program

  /** The running digest: the key it multiplies by and the block it has reached. */
  class Digester {
    const h: Block
    const y: array<byte>

    ghost predicate Valid() {
      y.Length == 16
    }

    constructor (key: Block)
      ensures Valid() && fresh(y) && h == key && y[..] == ZERO
    {
      h := key;
      y := new byte[16](_ => 0);
      new;
      assert y[..] == ZERO;
    }

    method AddBlock(block: Block)
      requires Valid()
      modifies y
      ensures y[..] == Mul(Xor(old(y[..]), block), h)
    {
      hide Mul;
      for i := 0 to 16
        invariant forall k :: 0 <= k < i ==> y[k] == old(y[k]) ^ block[k]
        invariant forall k :: i <= k < 16 ==> y[k] == old(y[k])
      {
        y[i] := y[i] ^ block[i];
      }
      assert y[..] == Xor(old(y[..]), block);
      var factor := new byte[16](k requires 0 <= k < 16 => h[k]);
      assert factor[..] == h;
      Multiply(y, y, factor);
    }

    method Update(data: seq<byte>)
      requires Valid()
      modifies y
      ensures y[..] == Digest(old(y[..]), h, Blocks(data))
    {
      hide Mul, Xor;
      var rest := data;
      while |rest| >= 16
        invariant Digest(y[..], h, Blocks(rest)) == Digest(old(y[..]), h, Blocks(data))
        decreases |rest|
      {
        assert Blocks(rest)[1..] == Blocks(rest[16..]);
        AddBlock(rest[..16]);
        rest := rest[16..];
      }
      if |rest| > 0 {
        assert Blocks(rest)[1..] == [];
        AddBlock(Padded(rest));
      }
    }

    method AddLengths(aad: nat, data: nat)
      requires Valid()
      modifies y
      ensures y[..] == Digest(old(y[..]), h, [Lengths(aad, data)])
    {
      hide Mul, Xor;
      AddBlock(Lengths(aad, data));
    }
  }

  /** Both parts and their lengths, digested. */
  method DigestBoth(h: Block, aad: seq<byte>, data: seq<byte>) returns (g: Digester)
    ensures fresh(g) && fresh(g.y) && g.Valid() && g.y[..] == Ghash(h, aad, data)
  {
    hide Mul, Xor, Blocks, Lengths, Digest;
    g := new Digester(h);
    DigestNothing(h);
    if |aad| > 0 {
      g.Update(aad);
    }
    if |data| > 0 {
      g.Update(data);
    }
    g.AddLengths(|aad|, |data|);
    DigestAppend(ZERO, h, Blocks(aad), Blocks(data));
    DigestAppend(ZERO, h, Blocks(aad) + Blocks(data), [Lengths(|aad|, |data|)]);
    BlocksOfNothing(aad, h);
    BlocksOfNothing(data, h);
  }

  lemma DigestNothing(h: Block)
    ensures forall y: Block :: Digest(y, h, []) == y
  {
  }

  lemma BlocksOfNothing(data: seq<byte>, h: Block)
    ensures |data| == 0 ==> Blocks(data) == []
  {
  }

  method DeriveCounter(h: Block, nonce: seq<byte>) returns (j0: Block)
    ensures j0 == FirstCounter(h, nonce)
  {
    if |nonce| == 12 {
      return nonce + [0, 0, 0, 1];
    }
    var g := DigestBoth(h, [], nonce);
    j0 := g.y[..];
  }

  method Increment(block: array<byte>)
    requires block.Length == 16
    modifies block
    ensures block[..] == Inc32(old(block[..]))
  {
    var i := 15;
    while i >= 12
      invariant 11 <= i < 16 && Bump(block[..], i) == Inc32(old(block[..]))
    {
      ghost var before: Block := block[..];
      block[i] := block[i] + 1;
      assert block[..] == before[i := before[i] + 1];
      if block[i] != 0 {
        break;
      }
      i := i - 1;
    }
  }

  /** Counter mode from one buffer to another, or in place. */
  method RunCtr(cipher: Block -> Block, counter: array<byte>, input: array<byte>, output: array<byte>)
    requires counter.Length == 16 && input.Length == output.Length && counter != input && counter != output
    modifies counter, output
    ensures output[..] == Ctr(cipher, old(counter[..]), old(input[..]))
  {
    hide Inc32, Ctr, Mixed;
    ghost var whole, data := Ctr(cipher, counter[..], input[..]), input[..];
    var at := 0;
    while at < input.Length
      invariant 0 <= at <= |data| && input[at..] == data[at..]
      invariant output[..at] + Ctr(cipher, counter[..], data[at..]) == whole
    {
      ghost var done, from: Block := output[..at], counter[..];
      Increment(counter);
      var key := cipher(counter[..]);
      var take := if input.Length - at < 16 then input.Length - at else 16;
      MixInto(output, input, at, take, key);
      CtrGrows(cipher, from, done, data[at..], take);
      Onward(data, at, take);
      at := at + take;
    }
    CtrStep(cipher, counter[..], []);
    assert data[at..] == [] && output[..at] + [] == output[..];
  }

  /** The bytes written so far and those still to come keep their concatenation. */
  lemma CtrGrows(cipher: Block -> Block, c: Block, done: seq<byte>, rest: seq<byte>, take: nat)
    requires rest != [] && take == if |rest| < 16 then |rest| else 16
    ensures (done + Mixed(rest[..take], cipher(Inc32(c)))) + Ctr(cipher, Inc32(c), rest[take..]) == done + Ctr(cipher, c, rest)
  {
    hide Inc32, Ctr, Mixed;
    CtrStep(cipher, c, rest);
    Joined(done, Mixed(rest[..take], cipher(Inc32(c))), Ctr(cipher, Inc32(c), rest[take..]));
  }

  lemma Onward(data: seq<byte>, at: nat, take: nat)
    requires at + take <= |data|
    ensures data[at..][take..] == data[at + take..]
  {
  }

  lemma Joined(a: seq<byte>, b: seq<byte>, c: seq<byte>)
    ensures a + (b + c) == (a + b) + c
  {
  }

  method MixInto(output: array<byte>, input: array<byte>, at: nat, take: nat, key: Block)
    requires input.Length == output.Length && take <= 16 && at + take <= input.Length
    modifies output
    ensures output[..at + take] == old(output[..at]) + Mixed(old(input[at..])[..take], key)
    ensures input[at + take..] == old(input[at + take..])
  {
    for i := 0 to take
      invariant forall k :: 0 <= k < output.Length && !(at <= k < at + i) ==> output[k] == old(output[k])
      invariant forall k :: at <= k < at + i ==> output[k] == old(input[k]) ^ key[k - at]
    {
      output[at + i] := input[at + i] ^ key[i];
    }
    ghost var text := old(input[at..])[..take];
    assert forall k :: 0 <= k < take ==> text[k] == old(input[at + k]);
    assert output[at..at + take] == Mixed(text, key);
    assert output[..at + take] == output[..at] + output[at..at + take];
    assert output[..at] == old(output[..at]);
  }

  /** Compares without stopping early. */
  method Compare(a: Block, b: Block) returns (same: bool)
    ensures same <==> a == b
  {
    var diff: byte := 0;
    for i := 0 to 16
      invariant diff == 0 <==> a[..i] == b[..i]
    {
      Differs(diff, a[i], b[i]);
      assert a[..i + 1] == a[..i] + [a[i]] && b[..i + 1] == b[..i] + [b[i]];
      diff := diff | (a[i] ^ b[i]);
    }
    assert a[..16] == a && b[..16] == b;
    same := diff == 0;
  }

  lemma Differs(d: byte, a: byte, b: byte)
    ensures d | (a ^ b) == 0 <==> d == 0 && a == b
  {
  }

  method ComputeTag(cipher: Block -> Block, nonce: seq<byte>, h: Block, j0: Block, aad: seq<byte>, ciphertext: seq<byte>)
    returns (tag: Block)
    requires h == cipher(ZERO) && j0 == FirstCounter(h, nonce)
    ensures tag == Tag(cipher, nonce, aad, ciphertext)
  {
    var g := DigestBoth(h, aad, ciphertext);
    tag := Xor(g.y[..], cipher(j0));
  }

  method Encrypt(cipher: Block -> Block, nonce: seq<byte>, aad: seq<byte>, plaintext: array<byte>,
                 ciphertext: array<byte>) returns (rc: int, tag: Block)
    requires plaintext.Length == ciphertext.Length
    modifies ciphertext
    ensures rc == if |nonce| == 0 then ERR_INVALID else OK
    ensures rc == OK ==> Sealed(ciphertext[..], tag) == Seal(cipher, nonce, aad, old(plaintext[..]))
    ensures rc != OK ==> ciphertext[..] == old(ciphertext[..])
  {
    tag := ZERO;
    if |nonce| == 0 {
      return ERR_INVALID, tag;
    }
    var h := cipher(ZERO);
    var j0 := DeriveCounter(h, nonce);
    var counter := new byte[16](k requires 0 <= k < 16 => j0[k]);
    assert counter[..] == j0;
    RunCtr(cipher, counter, plaintext, ciphertext);
    tag := ComputeTag(cipher, nonce, h, j0, aad, ciphertext[..]);
    rc := OK;
  }

  /** The tag is checked before any plaintext is written. */
  method Decrypt(cipher: Block -> Block, nonce: seq<byte>, aad: seq<byte>, ciphertext: array<byte>, tag: Block,
                 plaintext: array<byte>) returns (rc: int)
    requires plaintext.Length == ciphertext.Length
    modifies plaintext
    ensures var o := Open(cipher, nonce, aad, Sealed(old(ciphertext[..]), tag));
            && rc == (if |nonce| == 0 then ERR_INVALID else if o.Refused? then ERR_AUTH else OK)
            && plaintext[..] == if rc == OK then o.text else old(plaintext[..])
  {
    if |nonce| == 0 {
      return ERR_INVALID;
    }
    var h := cipher(ZERO);
    var j0 := DeriveCounter(h, nonce);
    var expected := ComputeTag(cipher, nonce, h, j0, aad, ciphertext[..]);
    var same := Compare(expected, tag);
    if !same {
      return ERR_AUTH;
    }
    var counter := new byte[16](k requires 0 <= k < 16 => j0[k]);
    assert counter[..] == j0;
    RunCtr(cipher, counter, ciphertext, plaintext);
    rc := OK;
  }
}
