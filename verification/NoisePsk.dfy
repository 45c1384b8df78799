/**
 * The pre-shared key from a password: Argon2id (RFC 9106, sections 3.2 and 3.3) with one lane, three passes, 64 MiB and
 * the hashed node id for salt. The first hash, the seed blocks, the memory loop and the last hash, put together.
 */
module NoisePsk {
  import opened Status
  import opened Words
  import opened Octets
  import Argon2
  import Blake2b
  import Sha256

  type Bytes = seq<uint8>

  /** What stays abstract: both hashes' compression functions, and the mixing of blocks. */
  datatype Primitives = Primitives(
    digest: (Sha256.State, seq<uint8>) -> Sha256.State, core: Blake2b.Core, mixer: Argon2.Mixer)

  // ------------------------------------------------------------------------------- the standard

  /** A parameter with its length before it. */
  function Measured(data: Bytes): Bytes {
    LittleEndian(|data|, 4) + data
  }

  /** Section 3.2, step 1: one lane, a tag of 32 bytes, 65536 blocks, three passes, version 0x13, type id; no secret, no data. */
  ghost function FirstHash(g: Primitives, password: Bytes, salt: Bytes): (h: Bytes)
    ensures |h| == 64
  {
    var parameters := LittleEndian(1, 4) + LittleEndian(32, 4) + LittleEndian(Argon2.BLOCKS, 4) + LittleEndian(3, 4)
                      + LittleEndian(0x13, 4) + LittleEndian(2, 4);
    g.core.Hash(parameters + Measured(password) + Measured(salt) + Measured([]) + Measured([]), 64)
  }

  /** The block that 1024 bytes spell. */
  function BlockOf(s: Bytes): (b: Argon2.Block)
    requires |s| == 1024
  {
    WordsAt(s, 0)
  }

  function WordsAt(s: Bytes, j: nat): (w: seq<uint64>)
    requires |s| == 1024 && j <= 128
    ensures |w| == 128 - j
    decreases 128 - j
  {
    if j == 128 then [] else [Word(s[8 * j..8 * j + 8])] + WordsAt(s, j + 1)
  }

  function Word(s: Bytes): (w: uint64)
    requires |s| == 8
    ensures w as int == BytesValue(s)
  {
    ValueFits(s);
    EightBytes();
    BytesValue(s) as uint64
  }

  /** Step 3 and 4: a seed block of the one lane. */
  ghost function Seed(g: Primitives, h: Bytes, i: nat): Argon2.Block {
    BlockOf(g.core.LongHash(h + LittleEndian(i, 4) + LittleEndian(0, 4), 1024))
  }

  function WithSeeds(m: Argon2.Memory, first: Argon2.Block, second: Argon2.Block): Argon2.Memory {
    m[0 := first][1 := second]
  }

  /** Memory with the two seed blocks set, whatever is in the others. */
  ghost function Seeded(g: Primitives, h: Bytes, m: Argon2.Memory): Argon2.Memory {
    hide Seed;
    WithSeeds(m, Seed(g, h, 0), Seed(g, h, 1))
  }

  /** Steps 5 to 7: fill the memory, and hash the last block. */
  ghost function Key(g: Primitives, password: Bytes, nodeId: Bytes): (key: Bytes)
    ensures |key| == 32
  {
    var h := FirstHash(g, password, Sha256.Hash(g.digest, nodeId));
    var m := Argon2.FromPass(g.mixer, Seeded(g, h, Argon2.Blank(Argon2.BLOCKS)), 0);
    g.core.LongHash(Blake2b.Bytes(m[Argon2.BLOCKS - 1]), 32)
  }

  // ------------------------------------------------------------------------------- blocks and bytes

  lemma WordSpells(s: Bytes, rest: seq<uint64>)
    requires |s| == 8
    ensures Blake2b.Bytes([Word(s)] + rest) == s + Blake2b.Bytes(rest)
  {
    hide LittleEndian, BytesValue;
    LittleEndianSpells(s);
    assert ([Word(s)] + rest)[1..] == rest;
  }

  lemma {:induction false} WordsSpell(s: Bytes, j: nat)
    requires |s| == 1024 && j <= 128
    ensures Blake2b.Bytes(WordsAt(s, j)) == s[8 * j..]
    decreases 128 - j
  {
    hide Blake2b.Bytes, Word;
    if j < 128 {
      WordsSpell(s, j + 1);
      WordSpells(s[8 * j..8 * j + 8], WordsAt(s, j + 1));
      assert s[8 * j..] == s[8 * j..8 * j + 8] + s[8 * (j + 1)..];
    } else {
      NoBytes();
    }
  }

  lemma NoBytes()
    ensures Blake2b.Bytes([]) == []
  {
  }

  /** Writing a block out gives the bytes it was read from. */
  lemma BlockSpells(s: Bytes)
    requires |s| == 1024
    ensures Blake2b.Bytes(BlockOf(s)) == s
  {
    WordsSpell(s, 0);
  }

  // ------------------------------------------------------------------------------- the inputs, byte by byte

  /** What the first hash takes in: lanes, tag length, blocks, passes, version and type, then everything measured. */
  lemma FirstHashIs(g: Primitives, password: Bytes, salt: Bytes) returns (length: Bytes)
    requires |password| < WORD && |salt| == 32
    ensures |length| == 4 && BytesValue(length) == |password|
    ensures FirstHash(g, password, salt)
         == g.core.Hash([1, 0, 0, 0, 32, 0, 0, 0, 0, 0, 1, 0, 3, 0, 0, 0, 19, 0, 0, 0, 2, 0, 0, 0]
                        + length + password + [32, 0, 0, 0] + salt + [0, 0, 0, 0, 0, 0, 0, 0], 64)
  {
    hide Blake2b.Core.Hash, BytesValue, LittleEndian, FirstHash;
    length := LittleEndian(|password|, 4);
    LengthSpells(|password|);
    PiecesAreParameters(g, password, salt);
    NumbersSpell();
    assert [] + Prefix(|password|) == [1, 0, 0, 0, 32, 0, 0, 0, 0, 0, 1, 0, 3, 0, 0, 0, 19, 0, 0, 0, 2, 0, 0, 0] + length;
    assert Zeros(8) == [0, 0, 0, 0, 0, 0, 0, 0];
  }

  lemma LengthSpells(n: nat)
    requires n < WORD
    ensures BytesValue(LittleEndian(n, 4)) == n
  {
    LittleEndianIs(n, 4);
    FourBytes();
  }

  lemma NumbersSpell()
    ensures LittleEndian(0, 4) == [0, 0, 0, 0] && LittleEndian(1, 4) == [1, 0, 0, 0] && LittleEndian(2, 4) == [2, 0, 0, 0]
    ensures LittleEndian(3, 4) == [3, 0, 0, 0] && LittleEndian(19, 4) == [19, 0, 0, 0] && LittleEndian(32, 4) == [32, 0, 0, 0]
    ensures LittleEndian(65536, 4) == [0, 0, 1, 0]
  {
  }

  /** A seed block's hash takes in the first hash, the number of the block and the number of the lane. */
  lemma SeedIs(g: Primitives, h: Bytes, i: nat)
    requires i < 2
    ensures Seed(g, h, i) == BlockOf(g.core.LongHash(h + [i as uint8, 0, 0, 0] + [0, 0, 0, 0], 1024))
  {
    hide Blake2b.Core.LongHash, WordsAt, LittleEndian;
    NumbersSpell();
  }

  // ------------------------------------------------------------------------------- the program

  /** What the program feeds to the first hash, piece by piece. */
  function Prefix(length: nat): Bytes {
    LittleEndian(1, 4) + LittleEndian(32, 4) + LittleEndian(65536, 4) + LittleEndian(3, 4) + LittleEndian(19, 4)
    + LittleEndian(2, 4) + LittleEndian(length, 4)
  }

  lemma PiecesAreParameters(g: Primitives, password: Bytes, salt: Bytes)
    requires |salt| == 32
    ensures g.core.Hash([] + Prefix(|password|) + password + LittleEndian(32, 4) + salt + Zeros(8), 64)
         == FirstHash(g, password, salt)
  {
    hide LittleEndian, Zeros, Blake2b.Core.Hash;
    NothingMeasured();
    var p := LittleEndian(1, 4) + LittleEndian(32, 4) + LittleEndian(Argon2.BLOCKS, 4) + LittleEndian(3, 4)
             + LittleEndian(0x13, 4) + LittleEndian(2, 4);
    Regroup(p, LittleEndian(|password|, 4), password, LittleEndian(32, 4), salt, Measured([]), Measured([]));
    assert [] + Prefix(|password|) == p + LittleEndian(|password|, 4);
  }

  lemma Regroup(a: Bytes, b: Bytes, c: Bytes, d: Bytes, e: Bytes, x: Bytes, y: Bytes)
    ensures (a + b) + c + d + e + (x + y) == a + (b + c) + (d + e) + x + y
  {
  }

  /** Neither a secret nor associated data: two lengths of zero. */
  lemma NothingMeasured()
    ensures Measured([]) + Measured([]) == Zeros(8)
  {
  }

  method HashParameters(g: Primitives, password: Bytes, salt: Bytes) returns (h: Bytes)
    requires |password| < WORD && |salt| == 32
    ensures h == FirstHash(g, password, salt)
  {
    hide *;
    var b := new Blake2b.Stream(g.core, 64);
    b.Update(Prefix(|password|));
    b.Update(password);
    b.Update(LittleEndian(32, 4));
    b.Update(salt);
    b.Update(Zeros(8));
    PiecesAreParameters(g, password, salt);
    h := b.Final();
  }

  method SeedBlock(g: Primitives, h: Bytes, i: nat) returns (b: Argon2.Block)
    requires |h| == 64
    ensures b == Seed(g, h, i)
  {
    hide LittleEndian, Blake2b.Core.LongHash, WordsAt;
    var block := new uint8[1024](_ => 0);
    var initial := h + LittleEndian(i, 4) + LittleEndian(0, 4);
    Blake2b.LongHashOf(g.core, initial, 1024, block);
    b := Words128(block[..]);
  }

  method Words128(s: Bytes) returns (b: Argon2.Block)
    requires |s| == 1024
    ensures b == BlockOf(s)
  {
    hide Word;
    var words := new uint64[128](_ => 0);
    var j := 128;
    while j > 0
      invariant 0 <= j <= 128 && words[j..] == WordsAt(s, j)
    {
      j := j - 1;
      words[j] := Word(s[8 * j..8 * j + 8]);
      assert words[j..] == [words[j]] + words[j + 1..];
    }
    assert words[..] == words[0..];
    b := words[..];
  }

  /** What the memory held before the call has no influence on the key. */
  lemma AnyMemory(g: Primitives, h: Bytes, m: Argon2.Memory)
    ensures Argon2.FromPass(g.mixer, Seeded(g, h, m), 0)
         == Argon2.FromPass(g.mixer, Seeded(g, h, Argon2.Blank(Argon2.BLOCKS)), 0)
  {
    hide Seed, Argon2.FromPass;
    Argon2.OnlySeedsMatter(g.mixer, Seeded(g, h, m), Seeded(g, h, Argon2.Blank(Argon2.BLOCKS)));
  }

  /** Seeds the memory and fills it, whatever it held. */
  method Fill(g: Primitives, h: Bytes, scratch: array<Argon2.Block>)
    requires |h| == 64 && scratch.Length >= Argon2.BLOCKS
    modifies scratch
    ensures scratch[Argon2.BLOCKS..] == old(scratch[Argon2.BLOCKS..])
    ensures scratch[..Argon2.BLOCKS] == Argon2.FromPass(g.mixer, Seeded(g, h, Argon2.Blank(Argon2.BLOCKS)), 0)
  {
    hide Argon2.FromPass, Argon2.Blank, Seed;
    ghost var m: Argon2.Memory := scratch[..Argon2.BLOCKS];
    var first := SeedBlock(g, h, 0);
    var second := SeedBlock(g, h, 1);
    scratch[0] := first;
    scratch[1] := second;
    assert scratch[..Argon2.BLOCKS] == Seeded(g, h, m);
    AnyMemory(g, h, m);
    Argon2.FillMemory(g.mixer, scratch);
  }

  method Wipe(scratch: array<Argon2.Block>)
    requires scratch.Length >= Argon2.BLOCKS
    modifies scratch
    ensures scratch[..Argon2.BLOCKS] == Argon2.Blank(Argon2.BLOCKS)
    ensures scratch[Argon2.BLOCKS..] == old(scratch[Argon2.BLOCKS..])
  {
    forall i | 0 <= i < Argon2.BLOCKS {
      scratch[i] := Argon2.ZERO;
    }
  }

  lemma KeyIs(g: Primitives, password: Bytes, nodeId: Bytes, m: seq<Argon2.Block>)
    requires |m| == Argon2.BLOCKS
    requires var h := FirstHash(g, password, Sha256.Hash(g.digest, nodeId));
             m == Argon2.FromPass(g.mixer, Seeded(g, h, Argon2.Blank(Argon2.BLOCKS)), 0)
    ensures g.core.LongHash(Blake2b.Bytes(m[Argon2.BLOCKS - 1]), 32) == Key(g, password, nodeId)
  {
    hide Argon2.FromPass, Argon2.Blank, Seeded, FirstHash, Sha256.Hash, Blake2b.Core.LongHash, Blake2b.Bytes;
  }

  /**
   * The key of a password and a node, whatever the memory held. The blocks used are wiped afterwards and those behind
   * them kept. A password too long for its length field and memory too small are refused.
   */
  method Derive(g: Primitives, password: Bytes, nodeId: Bytes, scratch: array<Argon2.Block>, out: array<uint8>)
    returns (rc: int)
    requires out.Length == 32
    modifies scratch, out
    ensures rc == if |password| >= WORD then ERR_INVALID else if scratch.Length < Argon2.BLOCKS then ERR_NOMEM else OK
    ensures rc == OK ==> out[..] == Key(g, password, nodeId)
    ensures rc == OK ==> scratch[..Argon2.BLOCKS] == Argon2.Blank(Argon2.BLOCKS)
    ensures rc == OK ==> scratch[Argon2.BLOCKS..] == old(scratch[Argon2.BLOCKS..])
    ensures rc != OK ==> out[..] == old(out[..]) && scratch[..] == old(scratch[..])
  {
    if |password| >= WORD {
      return ERR_INVALID;
    }
    if scratch.Length < Argon2.BLOCKS {
      return ERR_NOMEM;
    }
    hide Key, Argon2.Blank;
    DeriveInto(g, password, nodeId, scratch, out);
    rc := OK;
  }

  method DeriveInto(g: Primitives, password: Bytes, nodeId: Bytes, scratch: array<Argon2.Block>, out: array<uint8>)
    requires scratch.Length >= Argon2.BLOCKS && out.Length == 32 && |password| < WORD
    modifies scratch, out
    ensures out[..] == Key(g, password, nodeId)
    ensures scratch[..Argon2.BLOCKS] == Argon2.Blank(Argon2.BLOCKS)
    ensures scratch[Argon2.BLOCKS..] == old(scratch[Argon2.BLOCKS..])
  {
    hide Argon2.FromPass, Argon2.Blank, Seeded, FirstHash, Key, Sha256.Hash, Blake2b.Core.LongHash, Blake2b.Bytes;
    var salt := Sha256.Digest(g.digest, nodeId);
    var h := HashParameters(g, password, salt);
    Fill(g, h, scratch);
    KeyIs(g, password, nodeId, scratch[..Argon2.BLOCKS]);
    Blake2b.LongHashOf(g.core, Blake2b.Bytes(scratch[Argon2.BLOCKS - 1]), 32, out);
    Wipe(scratch);
  }
}
