/** What sealing makes, byte by byte: the blocks that are digested, the counter blocks, and how a tag comes about. */
module GcmMeaning {
  import opened Arithmetic
  import opened Words
  import opened Bits
  import opened Octets
  import opened Polynomials
  import opened Gf128
  import opened Gcm

  function Numbers(b: seq<byte>): (s: seq<uint8>)
    ensures |s| == |b| && forall k :: 0 <= k < |b| ==> s[k] as nat == b[k] as nat
  {
    seq(|b|, k requires 0 <= k < |b| => b[k] as uint8)
  }

  // ----------------------------------------------------------------------------- blocks as polynomials

  /** The coefficients of a block, from the constant term on, are its bits, each byte's highest first. */
  lemma CoefficientIs(b: Block, i: nat)
    requires i < 128
    ensures i in Coefficients(b) <==> b[i / 8] as nat / Pow2(7 - i % 8) % 2 == 1
  {
    hide Pow2, Uint, WordOf;
    BitIs(b[i / 8], i % 8);
  }

  lemma BitIs(x: byte, k: nat)
    requires k < 8
    ensures BitOf(x, k) <==> x as nat / Pow2(7 - k) % 2 == 1
  {
    hide Pow2, Uint, Number;
    WordOfIs(x);
    UintOfNumber(OfVector(x));
    UintBit(x as nat, 8, k);
  }

  /** How many pairs of terms make up X^e in a product of a's terms below X^n with b. */
  ghost function Pairs(a: Poly, b: Poly, e: nat, n: nat): nat {
    if n == 0 then 0 else Pairs(a, b, e, n - 1) + if n - 1 in a && e >= n - 1 && e - (n - 1) in b then 1 else 0
  }

  lemma {:induction false} PartialIs(a: Poly, b: Poly, e: nat, n: nat)
    ensures e in Partial(a, b, n) <==> Pairs(a, b, e, n) % 2 == 1
  {
    if n > 0 {
      PartialIs(a, b, e, n - 1);
    }
  }

  /** A product has the term X^e exactly when an odd number of pairs make it up. */
  lemma TermIff(a: Poly, b: Poly, e: nat, n: nat)
    requires forall k :: k in a ==> k < n
    ensures e in Product(a, b) <==> Pairs(a, b, e, n) % 2 == 1
  {
    hide Partial, Product;
    ProductIs(a, b, n);
    PartialIs(a, b, e, n);
  }

  /** Products of blocks are taken modulo X^128 + X^7 + X^2 + X + 1. */
  lemma BlockProductIs(x: Block, y: Block) returns (q: Poly)
    ensures Plus(Coefficients(Mul(x, y)), Product(Coefficients(x), Coefficients(y))) == Product(q, {128, 7, 2, 1, 0})
  {
    hide Mul, Coefficients, Product, Plus, Multiple;
    MulIsProduct(x, y);
    q :| Plus(Coefficients(Mul(x, y)), Product(Coefficients(x), Coefficients(y))) == Multiple(q);
    MultipleIsProduct(q);
  }

  // ------------------------------------------------------------------------------- what is digested

  /** Block i of some data, zeros behind its end. */
  ghost predicate BlockIs(data: seq<byte>, i: nat, b: Block) {
    forall k :: 0 <= k < 16 ==> b[k] == if 16 * i + k < |data| then data[16 * i + k] else 0
  }

  lemma {:induction false} BlocksAre(data: seq<byte>)
    ensures |Blocks(data)| == (|data| + 15) / 16
    ensures forall i :: 0 <= i < |Blocks(data)| ==> BlockIs(data, i, Blocks(data)[i])
    decreases |data|
  {
    var bs := Blocks(data);
    if |data| >= 16 {
      BlocksAre(data[16..]);
      forall i | 0 <= i < |bs|
        ensures BlockIs(data, i, bs[i])
      {
        if i > 0 {
          assert BlockIs(data[16..], i - 1, bs[i]);
        }
      }
    } else if |data| > 0 {
      var p := Padded(data);
      assert forall k :: 0 <= k < |data| ==> p[k] == p[..|data|][k];
    }
  }

  lemma LengthByteIs(bits: nat, i: nat)
    requires i < 8
    ensures LengthByte(bits, i) as nat == BigEndian(bits, 8)[i] as nat
  {
    hide BigEndian, Pow256, VectorOf, WordOf;
    BigEndianByte(bits, 8, i);
    var w := (bits / Pow256(7 - i) % 256) as uint8;
    SameWord(w);
    WordOfIs(VectorOf(w));
  }

  /** The last digested block: the bits of the associated data and those of the data, each as eight bytes, highest first. */
  ghost predicate Counts(b: Block, aad: nat, data: nat) {
    && BigValue(Numbers(b[..8])) == 8 * aad % 0x1_0000_0000_0000_0000
    && BigValue(Numbers(b[8..])) == 8 * data % 0x1_0000_0000_0000_0000
  }

  lemma LengthsCount(aad: nat, data: nat)
    ensures Counts(Lengths(aad, data), aad, data)
  {
    hide BigEndian, BigValue, Pow256, LengthByte;
    var b, x, y := Lengths(aad, data), aad * 8 % Pow256(8), data * 8 % Pow256(8);
    EightBytes();
    assert x == 8 * aad % 0x1_0000_0000_0000_0000 && y == 8 * data % 0x1_0000_0000_0000_0000;
    BigEndianSpells(x, 8);
    BigEndianSpells(y, 8);
    forall i | 0 <= i < 8
      ensures Numbers(b[..8])[i] == BigEndian(x, 8)[i] && Numbers(b[8..])[i] == BigEndian(y, 8)[i]
    {
      LengthByteIs(x, i);
      LengthByteIs(y, i);
    }
    assert Numbers(b[..8]) == BigEndian(x, 8) && Numbers(b[8..]) == BigEndian(y, 8);
  }

  /** Exactly the blocks of some data. */
  ghost predicate BlocksOf(data: seq<byte>, blocks: seq<Block>) {
    |blocks| == (|data| + 15) / 16 && forall i :: 0 <= i < |blocks| ==> BlockIs(data, i, blocks[i])
  }

  /** NIST SP 800-38D, section 6.4: all the blocks there are, and the polynomial they are the coefficients of. */
  lemma GhashIs(h: Block, aad: seq<byte>, data: seq<byte>) returns (a: seq<Block>, d: seq<Block>, counts: Block)
    ensures BlocksOf(aad, a) && BlocksOf(data, d) && Counts(counts, |aad|, |data|)
    ensures Ghash(h, aad, data) == Evaluate(h, a + d + [counts])
  {
    hide BlockIs, Counts, Evaluate, Ghash, Lengths, Blocks;
    a, d, counts := Blocks(aad), Blocks(data), Lengths(|aad|, |data|);
    BlocksAre(aad);
    BlocksAre(data);
    LengthsCount(|aad|, |data|);
    GhashIsPolynomial(h, aad, data);
  }

  /** A nonce of 12 bytes and a number in the four bytes behind it. */
  ghost predicate CounterIs(b: Block, nonce: seq<byte>, n: nat) {
    b[..12] == nonce && BigValue(Numbers(b[12..])) == n % 0x1_0000_0000
  }

  lemma CounterSpelled(b: Block)
    ensures BigValue(Numbers(b[12..])) == Counter(b)
  {
    var s := Numbers(b[12..]);
    assert s == [s[0], s[1], s[2], s[3]];
    FourValue(s[0], s[1], s[2], s[3]);
  }

  lemma FourValue(a: uint8, b: uint8, c: uint8, d: uint8)
    ensures BigValue([a, b, c, d]) == ((a as int * 256 + b as int) * 256 + c as int) * 256 + d as int
  {
    hide BigValue;
    BigValueGrows([a, b, c], d);
    BigValueGrows([a, b], c);
    BigValueGrows([a], b);
    BigValueGrows([], a);
    assert [a, b, c] + [d] == [a, b, c, d] && [a, b] + [c] == [a, b, c] && [a] + [b] == [a, b] && [] + [a] == [a];
    NothingSpells();
  }

  lemma NothingSpells()
    ensures BigValue([]) == 0
  {
  }

  lemma {:induction false} SteppedKeepsNonce(b: Block, n: nat)
    ensures Stepped(b, n)[..12] == b[..12]
  {
    hide Inc32, Counter;
    if n > 0 {
      SteppedKeepsNonce(b, n - 1);
      Inc32Keeps(Stepped(b, n - 1));
    }
  }

  /**
   * Sealing under a nonce of 12 bytes: byte i is mixed with the cipher of the counter block 2 + i / 16, and the digest is
   * mixed with that of counter block 1.
   */
  lemma SealIs(cipher: Block -> Block, nonce: seq<byte>, aad: seq<byte>, text: seq<byte>)
    returns (counters: seq<Block>, zero: Block)
    requires |nonce| == 12
    ensures |counters| == |text| / 16 + 2 && (forall n :: 0 <= n < |counters| ==> CounterIs(counters[n], nonce, n + 1))
    ensures forall k :: 0 <= k < 16 ==> zero[k] == 0
    ensures var box := Seal(cipher, nonce, aad, text);
            && |box.ciphertext| == |text|
            && (forall i :: 0 <= i < |text| ==> box.ciphertext[i] == text[i] ^ cipher(counters[i / 16 + 1])[i % 16])
            && (forall k :: 0 <= k < 16 ==>
                  box.tag[k] == Ghash(cipher(zero), aad, box.ciphertext)[k] ^ cipher(counters[0])[k])
  {
    hide Ghash, Ctr, Stepped, CounterIs, BigValue;
    zero := ZERO;
    var first := FirstCounter(cipher(ZERO), nonce);
    counters := seq(|text| / 16 + 2, n requires 0 <= n < |text| / 16 + 2 => Stepped(first, n));
    forall n | 0 <= n < |counters|
      ensures CounterIs(counters[n], nonce, n + 1)
    {
      CounterStepped(nonce, n);
    }
    StepNone(first);
    forall i | 0 <= i < |text|
      ensures Ctr(cipher, first, text)[i] == text[i] ^ cipher(counters[i / 16 + 1])[i % 16]
    {
      CtrAt(cipher, first, text, i);
    }
  }

  lemma StepNone(b: Block)
    ensures Stepped(b, 0) == b
  {
  }

  lemma CounterStepped(nonce: seq<byte>, n: nat)
    requires |nonce| == 12
    ensures var first: Block := nonce + [0, 0, 0, 1]; CounterIs(Stepped(first, n), nonce, n + 1)
  {
    hide Stepped, BigValue;
    var first: Block := nonce + [0, 0, 0, 1];
    SteppedCounts(first, n);
    SteppedKeepsNonce(first, n);
    CounterSpelled(Stepped(first, n));
    assert first[..12] == nonce && Counter(first) == 1;
  }

  /** Under any other nonce counting starts at the digest of the nonce, without associated data. */
  lemma LongNonce(cipher: Block -> Block, nonce: seq<byte>, aad: seq<byte>, text: seq<byte>)
    requires |nonce| != 12
    ensures var first := Ghash(cipher(ZERO), [], nonce); var box := Seal(cipher, nonce, aad, text);
            && |box.ciphertext| == |text|
            && (forall i :: 0 <= i < |text| ==> box.ciphertext[i] == text[i] ^ cipher(Stepped(first, i / 16 + 1))[i % 16])
            && (forall k :: 0 <= k < 16 ==> box.tag[k] == Ghash(cipher(ZERO), aad, box.ciphertext)[k] ^ cipher(first)[k])
  {
    hide Ghash, Ctr, Stepped;
    var first := Ghash(cipher(ZERO), [], nonce);
    forall i | 0 <= i < |text|
      ensures Ctr(cipher, first, text)[i] == text[i] ^ cipher(Stepped(first, i / 16 + 1))[i % 16]
    {
      CtrAt(cipher, first, text, i);
    }
  }
}
