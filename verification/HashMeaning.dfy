/** SHA-256, BLAKE2b and the variable-length hash block by block: every compression, its input and what comes out. */
module HashMeaning {
  import opened Words
  import opened Arithmetic
  import opened Octets
  import Sha256
  import Blake2b

  // ------------------------------------------------------------------------------------------ SHA-256

  /** FIPS 180-4, section 5.1.1: the message, a byte 0x80, the fewest zeros, and the length in bits in eight bytes. */
  ghost predicate IsPadded(m: seq<uint8>, p: seq<uint8>, n: nat) {
    && |p| == 64 * n && 64 * n - 64 < |m| + 9 <= 64 * n && m < p && p[|m|] == 0x80
    && (forall k :: |m| < k < |p| - 8 ==> p[k] == 0) && BigValue(p[|p| - 8..]) == 8 * |m| % 0x1_0000_0000_0000_0000
  }

  lemma PadIs(m: seq<uint8>) returns (n: nat)
    ensures IsPadded(m, Sha256.Pad(m), n)
  {
    hide BigEndian, BigValue, Pow256;
    var p, zeros, field := Sha256.Pad(m), Zeros(Sha256.Gap(|m|)), Sha256.LengthField(|m|);
    n := |p| / 64;
    EightBytes();
    BigEndianSpells(8 * |m| % WRAP, 8);
    assert p[|p| - 8..] == field;
    assert forall k :: |m| < k < |p| - 8 ==> p[k] == zeros[k - |m| - 1];
  }

  ghost predicate Compressed(f: (Sha256.State, seq<uint8>) -> Sha256.State, p: seq<uint8>, hs: seq<Sha256.State>) {
    && |hs| > 0 && |p| == 64 * (|hs| - 1)
    && forall i :: 0 <= i < |hs| - 1 ==> hs[i + 1] == f(hs[i], p[64 * i..64 * i + 64])
  }

  lemma {:induction false} FoldTrace(f: (Sha256.State, seq<uint8>) -> Sha256.State, h: Sha256.State, p: seq<uint8>, n: nat)
    returns (hs: seq<Sha256.State>)
    requires |p| == 64 * n
    ensures |hs| == n + 1 && Compressed(f, p, hs) && hs[0] == h && hs[n] == Sha256.Fold(f, h, p)
    decreases n
  {
    if n == 0 {
      hs := [h];
    } else {
      var rest := FoldTrace(f, f(h, p[..64]), p[64..], n - 1);
      hs := [h] + rest;
      forall i | 0 <= i < n
        ensures hs[i + 1] == f(hs[i], p[64 * i..64 * i + 64])
      {
        if i > 0 {
          assert p[64..][64 * (i - 1)..64 * (i - 1) + 64] == p[64 * i..64 * i + 64];
        }
      }
    }
  }

  lemma {:induction false} WordsSpell(s: seq<uint32>, i: nat)
    requires i < |s|
    ensures BigValue(Sha256.Serialize(s)[4 * i..4 * i + 4]) == s[i] as nat
  {
    hide BigEndian, BigValue;
    var r, first := Sha256.Serialize(s), BigEndian(s[0] as nat, 4);
    if i == 0 {
      BigEndianSpells(s[0] as nat, 4);
      FourBytes();
      assert r[0..4] == first;
    } else {
      WordsSpell(s[1..], i - 1);
      assert r[4 * i..4 * i + 4] == Sha256.Serialize(s[1..])[4 * (i - 1)..4 * (i - 1) + 4];
    }
  }

  /** The hash: from the standard's first state, one compression for each block of the padded message. */
  lemma Sha256Is(f: (Sha256.State, seq<uint8>) -> Sha256.State, m: seq<uint8>)
    returns (p: seq<uint8>, n: nat, hs: seq<Sha256.State>)
    ensures IsPadded(m, p, n) && |hs| == n + 1 && Compressed(f, p, hs)
    ensures hs[0] == [0x6a09e667, 0xbb67ae85, 0x3c6ef372, 0xa54ff53a, 0x510e527f, 0x9b05688c, 0x1f83d9ab, 0x5be0cd19]
    ensures forall i :: 0 <= i < 8 ==> BigValue(Sha256.Hash(f, m)[4 * i..4 * i + 4]) == hs[n][i] as nat
  {
    hide BigValue, Sha256.Serialize, Sha256.Fold, Compressed;
    p := Sha256.Pad(m);
    n := PadIs(m);
    hs := FoldTrace(f, Sha256.IV, p, n);
    forall i | 0 <= i < 8
      ensures BigValue(Sha256.Hash(f, m)[4 * i..4 * i + 4]) == hs[n][i] as nat
    {
      WordsSpell(hs[n], i);
    }
  }

  // ------------------------------------------------------------------------------------------ BLAKE2b

  /** Block i of a message, zeros behind its end. */
  function BlockAt(m: seq<uint8>, i: nat): (b: seq<uint8>)
    ensures |b| == 128
  {
    seq(128, k requires 0 <= k < 128 => if 128 * i + k < |m| then m[128 * i + k] else 0)
  }

  /** RFC 7693, section 3.3: block i goes in with the count of bytes up to its end, and the last one marked. */
  ghost predicate TakesBlock(c: Blake2b.Core, m: seq<uint8>, n: nat, i: nat, h: Blake2b.State, h': Blake2b.State) {
    var count := if i + 1 == n then |m| else 128 * (i + 1);
    h' == c.compress(h, BlockAt(m, i), (count % 0x1_0000_0000_0000_0000) as uint64, i + 1 == n)
  }

  ghost predicate TakesBlocks(c: Blake2b.Core, m: seq<uint8>, n: nat, i: nat, hs: seq<Blake2b.State>) {
    forall j :: 0 <= j < |hs| - 1 ==> TakesBlock(c, m, n, i + j, hs[j], hs[j + 1])
  }

  /** As many blocks as the message needs, one at least. */
  ghost predicate BlockCount(m: seq<uint8>, n: nat) {
    if m == [] then n == 1 else 128 * (n - 1) < |m| <= 128 * n
  }

  lemma WholeBlock(m: seq<uint8>, i: nat)
    requires 128 * i + 128 <= |m|
    ensures BlockAt(m, i) == m[128 * i..128 * i + 128]
  {
  }

  lemma {:induction false} AbsorbTrace(c: Blake2b.Core, m: seq<uint8>, h: Blake2b.State, i: nat, n: nat) returns (hs: seq<Blake2b.State>)
    requires i < n && 128 * (n - 1) <= |m|
    ensures |hs| == n - i && hs[0] == h && hs[n - 1 - i] == Blake2b.Absorb(c.compress, h, m, 128 * i, 128 * (n - 1))
    ensures TakesBlocks(c, m, n, i, hs)
    decreases n - i
  {
    hide BlockAt;
    if i == n - 1 {
      hs := [h];
    } else {
      WholeBlock(m, i);
      var h' := c.compress(h, m[128 * i..128 * i + 128], Blake2b.Wrap(128 * i + 128), false);
      var rest := AbsorbTrace(c, m, h', i + 1, n);
      hs := [h] + rest;
      FirstTaken(c, m, n, i, h, rest);
    }
  }

  lemma FirstTaken(c: Blake2b.Core, m: seq<uint8>, n: nat, i: nat, h: Blake2b.State, rest: seq<Blake2b.State>)
    requires rest != [] && TakesBlocks(c, m, n, i + 1, rest) && TakesBlock(c, m, n, i, h, rest[0])
    ensures TakesBlocks(c, m, n, i, [h] + rest)
  {
    hide TakesBlock;
    var hs := [h] + rest;
    forall j | 0 <= j < |hs| - 1
      ensures TakesBlock(c, m, n, i + j, hs[j], hs[j + 1])
    {
      if j > 0 {
        assert TakesBlock(c, m, n, i + 1 + (j - 1), rest[j - 1], rest[j]);
      }
    }
  }

  /** The hash of a message: the parameter block's state, every block in order, and the last state's words, lowest byte first. */
  lemma Blake2bIs(c: Blake2b.Core, m: seq<uint8>, size: nat) returns (n: nat, hs: seq<Blake2b.State>)
    requires size <= 64
    ensures BlockCount(m, n) && |hs| == n + 1 && hs[0] == c.iv[0 := c.mix(c.iv[0], size as uint64)] && TakesBlocks(c, m, n, 0, hs)
    ensures forall k :: 0 <= k < size ==> c.Hash(m, size)[k] as nat == hs[n][k / 8] as nat / Pow256(k % 8) % 256
  {
    hide Pow256, Blake2b.Absorb, Blake2b.Bytes, TakesBlocks, TakesBlock;
    var at := Blake2b.LastBlock(|m|);
    n := at / 128 + 1;
    var start := c.Start(size);
    var before := AbsorbTrace(c, m, start, 0, n);
    var last := Blake2b.Finish(c.compress, start, m);
    hs := before + [last];
    LastTakes(c, m, n, before[n - 1], last);
    LastTaken(c, m, n, before, last);
    forall k | 0 <= k < size
      ensures c.Hash(m, size)[k] as nat == last[k / 8] as nat / Pow256(k % 8) % 256
    {
      WordByte(last, k);
    }
  }

  lemma LastTaken(c: Blake2b.Core, m: seq<uint8>, n: nat, before: seq<Blake2b.State>, last: Blake2b.State)
    requires |before| == n >= 1 && TakesBlocks(c, m, n, 0, before) && TakesBlock(c, m, n, n - 1, before[n - 1], last)
    ensures TakesBlocks(c, m, n, 0, before + [last])
  {
    hide TakesBlock;
    var hs := before + [last];
    forall j | 0 <= j < |hs| - 1
      ensures TakesBlock(c, m, n, 0 + j, hs[j], hs[j + 1])
    {
      if j < n - 1 {
        assert TakesBlock(c, m, n, 0 + j, before[j], before[j + 1]);
      }
    }
  }

  lemma LastTakes(c: Blake2b.Core, m: seq<uint8>, n: nat, h: Blake2b.State, h': Blake2b.State)
    requires n == Blake2b.LastBlock(|m|) / 128 + 1
    requires h' == c.compress(h, Blake2b.Filled(m[128 * (n - 1)..]), Blake2b.Wrap(|m|), true)
    ensures TakesBlock(c, m, n, n - 1, h, h')
  {
    assert Blake2b.Filled(m[128 * (n - 1)..]) == BlockAt(m, n - 1);
  }

  lemma {:induction false} WordByte(h: seq<uint64>, k: nat)
    requires k < 8 * |h|
    ensures Blake2b.Bytes(h)[k] as nat == h[k / 8] as nat / Pow256(k % 8) % 256
  {
    hide Pow256, LittleEndian;
    if k < 8 {
      LittleEndianByte(h[0] as nat, 8, k);
    } else {
      WordByte(h[1..], k - 8);
      assert (k - 8) / 8 == k / 8 - 1 && (k - 8) % 8 == k % 8;
    }
  }

  // -------------------------------------------------------------------------- the variable-length hash

  /**
   * RFC 9106, section 3.3. A short result is one hash of the length and the message. A long one takes the first half of
   * each link of a chain of hashes, and as many bytes as are missing from the hash of the last link.
   */
  lemma LongHashIs(c: Blake2b.Core, m: seq<uint8>, size: nat) returns (length: seq<uint8>, links: seq<seq<uint8>>)
    requires size < WORD
    ensures |length| == 4 && BytesValue(length) == size
    ensures size <= 64 ==> c.LongHash(m, size) == c.Hash(length + m, size)
    ensures size > 64 ==>
              && links != [] && 32 < size - 32 * |links| <= 64 && links[0] == c.Hash(length + m, 64)
              && (forall i :: 0 <= i < |links| - 1 ==> links[i + 1] == c.Hash(links[i], 64))
              && (forall i :: 0 <= i < |links| ==> HalfTaken(c.LongHash(m, size), i, links[i]))
              && c.LongHash(m, size)[32 * |links|..] == c.Hash(links[|links| - 1], size - 32 * |links|)
  {
    hide BytesValue, LittleEndian, Pow256, HalfTaken;
    hide Blake2b.Core.Hash, Blake2b.Core.Halves, Blake2b.Core.Link, Blake2b.Core.LongHash;
    LittleEndianIs(size, 4);
    FourBytes();
    length, links := LittleEndian(size, 4), [];
    if size <= 64 {
      c.ShortIsHash(m, size);
    } else {
      var r := (size + 31) / 32 - 2;
      links := seq(r, i requires 0 <= i < r => c.Link(m, size, i + 1));
      c.ChainBegins(m, size);
      c.ChainEnds(m, size, r, size - 32 * r);
      TailIs(c.LongHash(m, size), c.Halves(m, size, r), c.Hash(c.Link(m, size, r), size - 32 * r));
      forall i | 0 <= i < r
        ensures i + 1 < r ==> links[i + 1] == c.Hash(links[i], 64)
        ensures HalfTaken(c.LongHash(m, size), i, links[i])
      {
        LinkStep(c, m, size, r, i);
      }
    }
  }

  lemma TailIs(out: seq<uint8>, front: seq<uint8>, tail: seq<uint8>)
    requires out == front + tail
    ensures out[|front|..] == tail && front <= out
  {
  }

  lemma LinkStep(c: Blake2b.Core, m: seq<uint8>, size: nat, r: nat, i: nat)
    requires i < r && c.Halves(m, size, r) <= c.LongHash(m, size)
    ensures c.Link(m, size, i + 2) == c.Hash(c.Link(m, size, i + 1), 64)
    ensures HalfTaken(c.LongHash(m, size), i, c.Link(m, size, i + 1))
  {
    hide Blake2b.Core.Hash, Blake2b.Core.Halves, Blake2b.Core.Link, Blake2b.Core.LongHash;
    c.ChainGoesOn(m, size, i + 1);
    HalfAt(c, m, size, r, i);
    HalfOfPrefix(c.LongHash(m, size), c.Halves(m, size, r), i, c.Link(m, size, i + 1));
  }

  /** The i-th 32 bytes of the output are the first half of this link. */
  ghost predicate HalfTaken(out: seq<uint8>, i: nat, link: seq<uint8>) {
    |link| == 64 && 32 * i + 32 <= |out| && out[32 * i..32 * i + 32] == link[..32]
  }

  lemma HalfOfPrefix(out: seq<uint8>, front: seq<uint8>, i: nat, link: seq<uint8>)
    requires front <= out && HalfTaken(front, i, link)
    ensures HalfTaken(out, i, link)
  {
    assert out[..|front|][32 * i..32 * i + 32] == out[32 * i..32 * i + 32];
  }

  lemma {:induction false} HalfAt(c: Blake2b.Core, m: seq<uint8>, size: nat, n: nat, i: nat)
    requires i < n
    ensures HalfTaken(c.Halves(m, size, n), i, c.Link(m, size, i + 1))
  {
    hide Blake2b.Core.Link;
    if i < n - 1 {
      HalfAt(c, m, size, n - 1, i);
      HalfOfPrefix(c.Halves(m, size, n), c.Halves(m, size, n - 1), i, c.Link(m, size, i + 1));
    }
  }
}
