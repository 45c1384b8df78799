/** The pre-shared key from first to last, in the bytes and numbers of RFC 9106. */
module PskMeaning {
  import opened Words
  import opened Octets
  import opened NoisePsk
  import opened Argon2Meaning
  import Argon2
  import Blake2b
  import Sha256

  /** The first hash: parameters, the password behind its length, the salt behind its length, and two lengths of nothing. */
  ghost predicate IsFirstHash(g: Primitives, password: Bytes, salt: Bytes, h: Bytes) {
    exists length: Bytes ::
      && |length| == 4 && BytesValue(length) == |password|
      && h == g.core.Hash([1, 0, 0, 0, 32, 0, 0, 0, 0, 0, 1, 0, 3, 0, 0, 0, 19, 0, 0, 0, 2, 0, 0, 0]
                          + length + password + [32, 0, 0, 0] + salt + [0, 0, 0, 0, 0, 0, 0, 0], 64)
  }

  /** The block that a long hash of 1024 bytes spells, eight bytes a word, the lowest first. */
  ghost predicate IsSeed(g: Primitives, h: Bytes, i: uint8, b: Argon2.Block) {
    Blake2b.Bytes(b) == g.core.LongHash(h + [i, 0, 0, 0] + [0, 0, 0, 0], 1024)
  }

  lemma SeedSpells(g: Primitives, h: Bytes, i: nat)
    requires i < 2
    ensures IsSeed(g, h, i as uint8, Seed(g, h, i))
  {
    hide Seed, Blake2b.Core.LongHash, BlockOf, Blake2b.Bytes;
    SeedIs(g, h, i);
    BlockSpells(g.core.LongHash(h + [i as uint8, 0, 0, 0] + [0, 0, 0, 0], 1024));
  }

  /**
   * The key: the hashed node id salts the first hash, that makes the first two blocks, twelve segments fill the memory, and
   * 32 bytes are hashed from its last block.
   */
  lemma KeySteps(g: Primitives, password: Bytes, nodeId: Bytes) returns (h: Bytes, ms: seq<Argon2.Memory>)
    requires |password| < WORD
    ensures IsFirstHash(g, password, Sha256.Hash(g.digest, nodeId), h)
    ensures |ms| == 13 && IsSeed(g, h, 0, ms[0][0]) && IsSeed(g, h, 1, ms[0][1])
    ensures forall pass, slice :: 0 <= pass < 3 && 0 <= slice < 4 ==> SegmentFills(g.mixer, ms, pass, slice)
    ensures Key(g, password, nodeId) == g.core.LongHash(Blake2b.Bytes(ms[12][65535]), 32)
  {
    hide FirstHash, Seed, IsSeed, Argon2.Blank, Argon2.FromPass, SegmentFills, Sha256.Hash, BytesValue;
    hide Blake2b.Core.LongHash, Blake2b.Core.Hash, Blake2b.Bytes;
    var salt := Sha256.Hash(g.digest, nodeId);
    h := FirstHash(g, password, salt);
    var length := FirstHashIs(g, password, salt);
    SeedSpells(g, h, 0);
    SeedSpells(g, h, 1);
    ms := SegmentsInOrder(g.mixer, Seeded(g, h, Argon2.Blank(Argon2.BLOCKS)));
  }
}
