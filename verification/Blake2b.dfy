/**
 * BLAKE2b as a stream (RFC 7693, section 3.3) over a compression function that stays abstract, and the variable-length
 * hash built from it (RFC 9106, section 3.3).
 */
module Blake2b {
  import opened Words
  import opened Octets

  type State = s: seq<uint64> | |s| == 8 witness [0, 0, 0, 0, 0, 0, 0, 0]

  /** Compresses a block of 128 bytes: the state, the block, the count of bytes so far, and whether it is the last. */
  type Compression = (State, seq<uint8>, uint64, bool) -> State

  function Wrap(n: nat): uint64 {
    (n % WRAP) as uint64
  }

  // ------------------------------------------------------------------------------- the standard

  function Filled(m: seq<uint8>): (b: seq<uint8>)
    requires |m| <= 128
    ensures |b| == 128
  {
    m + Zeros(128 - |m|)
  }

  /** The blocks before the last, from byte `at` of the message to byte `end`. */
  function Absorb(f: Compression, h: State, m: seq<uint8>, at: nat, end: nat): State
    requires at <= end <= |m| && (end - at) % 128 == 0
    decreases end - at
  {
    if at == end then h else Absorb(f, f(h, m[at..at + 128], Wrap(at + 128), false), m, at + 128, end)
  }

  /** Where the last block begins: it is never empty, except for the empty message. */
  function LastBlock(length: nat): (at: nat)
    ensures at <= length && at % 128 == 0 && length - at <= 128 && (length > 0 ==> length > at)
  {
    if length == 0 then 0 else (length - 1) / 128 * 128
  }

  function Initial(iv: State, size: uint64, mix: (uint64, uint64) -> uint64): State {
    iv[0 := mix(iv[0], size)]
  }

  /** The state after the last block, which is marked and padded with zeros. */
  function Finish(f: Compression, h: State, m: seq<uint8>): State {
    var at := LastBlock(|m|);
    f(Absorb(f, h, m, 0, at), Filled(m[at..]), Wrap(|m|), true)
  }

  /** The words of a state, the lowest byte of each first. */
  function Bytes(h: seq<uint64>): (s: seq<uint8>)
    ensures |s| == 8 * |h|
  {
    if h == [] then [] else LittleEndian(h[0] as nat, 8) + Bytes(h[1..])
  }

  // ------------------------------------------------------------------------------- the program's parameters

  /** What the program takes from its tables and its arithmetic on words. */
  datatype Core = Core(compress: Compression, iv: State, mix: (uint64, uint64) -> uint64) {
    ghost function Start(size: nat): State
      requires size <= 64
    {
      Initial(iv, size as uint64, mix)
    }

    /** The hash of a message, `size` bytes long. */
    ghost function Hash(m: seq<uint8>, size: nat): (out: seq<uint8>)
      requires size <= 64
      ensures |out| == size
    {
      Bytes(Finish(compress, Start(size), m))[..size]
    }

    /** RFC 9106, section 3.3: the i-th link of the chain, counted from 1. */
    ghost function Link(m: seq<uint8>, size: nat, i: nat): (out: seq<uint8>)
      requires i >= 1
      ensures |out| == 64
    {
      if i == 1 then Hash(LittleEndian(size, 4) + m, 64) else Hash(Link(m, size, i - 1), 64)
    }

    /** The first halves of the links from 1 to n. */
    ghost function Halves(m: seq<uint8>, size: nat, n: nat): (out: seq<uint8>)
      ensures |out| == 32 * n
    {
      if n == 0 then [] else Halves(m, size, n - 1) + Link(m, size, n)[..32]
    }

    lemma ChainBegins(m: seq<uint8>, size: nat)
      ensures Halves(m, size, 0) == [] && Link(m, size, 1) == Hash(LittleEndian(size, 4) + m, 64)
    {
    }

    lemma ChainGoesOn(m: seq<uint8>, size: nat, i: nat)
      requires i >= 1
      ensures Link(m, size, i + 1) == Hash(Link(m, size, i), 64)
      ensures Halves(m, size, i) == Halves(m, size, i - 1) + Link(m, size, i)[..32]
    {
      hide Hash;
    }

    /** The variable-length hash: r half links and what is left from hashing the last of them. */
    ghost function LongHash(m: seq<uint8>, size: nat): (out: seq<uint8>)
      ensures |out| == size
    {
      if size <= 64 then Hash(LittleEndian(size, 4) + m, size)
      else
        var r := (size + 31) / 32 - 2;
        Halves(m, size, r) + Hash(Link(m, size, r), size - 32 * r)
    }

    lemma ShortIsHash(m: seq<uint8>, size: nat)
      ensures size <= 64 ==> LongHash(m, size) == Hash(LittleEndian(size, 4) + m, size)
    {
    }

    lemma ChainEnds(m: seq<uint8>, size: nat, links: nat, left: nat)
      requires 32 * links + left == size > 64 && 32 < left <= 64
      ensures LongHash(m, size) == Halves(m, size, links) + Hash(Link(m, size, links), left)
    {
      hide Hash, Link, Halves;
      assert links == (size + 31) / 32 - 2;
    }
  }

  // ------------------------------------------------------------------------------- the stream

  lemma {:induction false} AbsorbMore(f: Compression, h: State, m: seq<uint8>, m': seq<uint8>, at: nat, end: nat)
    requires at <= end && end + 128 <= |m'| && end <= |m| && m[..end] == m'[..end] && (end - at) % 128 == 0
    ensures Absorb(f, h, m', at, end + 128)
         == f(Absorb(f, h, m, at, end), m'[end..end + 128], Wrap(end + 128), false)
    decreases end - at
  {
    if at < end {
      assert m[..end][at..at + 128] == m[at..at + 128] && m'[..end][at..at + 128] == m'[at..at + 128];
      AbsorbMore(f, f(h, m[at..at + 128], Wrap(at + 128), false), m, m', at + 128, end);
    }
  }

  lemma {:induction false} AbsorbSame(f: Compression, h: State, m: seq<uint8>, m': seq<uint8>, at: nat, end: nat)
    requires at <= end <= |m| && end <= |m'| && m[..end] == m'[..end] && (end - at) % 128 == 0
    ensures Absorb(f, h, m, at, end) == Absorb(f, h, m', at, end)
    decreases end - at
  {
    if at < end {
      assert m[..end][at..at + 128] == m[at..at + 128] && m'[..end][at..at + 128] == m'[at..at + 128];
      AbsorbSame(f, f(h, m[at..at + 128], Wrap(at + 128), false), m, m', at + 128, end);
    }
  }

  class Stream {
    const core: Core
    const output: nat
    var h: State
    var count: uint64
    const block: array<uint8>
    var used: nat
    /** Every byte taken in so far. */
    ghost var message: seq<uint8>

    /** The buffer is only compressed when another byte is there to follow it, so it holds the last block. */
    ghost predicate Valid()
      reads this, block
    {
      InStep() && (|message| > 0 ==> used > 0)
    }

    ghost predicate InStep()
      reads this, block
    {
      var full := |message| - used;
      && output <= 64 && block.Length == 128 && used <= 128 && full >= 0 && full % 128 == 0
      && block[..used] == message[full..]
      && count == Wrap(full)
      && h == Absorb(core.compress, core.Start(output), message, 0, full)
    }

    constructor (c: Core, size: nat)
      requires size <= 64
      ensures Valid() && fresh(block) && message == [] && core == c && output == size
    {
      core := c;
      output := size;
      h := c.iv[0 := c.mix(c.iv[0], size as uint64)];
      count := 0;
      block := new uint8[128](_ => 0);
      used := 0;
      message := [];
    }

    method Update(data: seq<uint8>)
      requires Valid()
      modifies this, block
      ensures Valid() && message == old(message) + data
    {
      hide Valid;
      var rest := data;
      while |rest| > 0
        invariant Valid() && message + rest == old(message) + data
        decreases |rest|
      {
        var take := Take(rest);
        assert rest[..take] + rest[take..] == rest;
        rest := rest[take..];
      }
      assert message + rest == message;
    }

    /** One round of taking in: compress a full buffer, then copy what fits. */
    method Take(rest: seq<uint8>) returns (take: nat)
      requires Valid() && |rest| > 0
      modifies this, block
      ensures 0 < take <= |rest| && Valid() && message == old(message) + rest[..take]
    {
      hide InStep;
      UsedBound();
      if used == 128 {
        Compress();
      }
      take := if 128 - used > |rest| then |rest| else 128 - used;
      Append(rest[..take]);
    }

    lemma UsedBound()
      requires InStep()
      ensures used <= 128
    {
    }

    /** Empties a full buffer, which is not the last block. */
    method Compress()
      requires InStep() && used == 128
      modifies this
      ensures InStep() && message == old(message) && used == 0
    {
      hide Core.Start, Wrap, Absorb;
      ghost var full := |message| - 128;
      WrapAdds(full, 128);
      AbsorbMore(core.compress, core.Start(output), message, message, 0, full);
      assert block[..] == block[..128] == message[full..full + 128];
      count := Wrap(count as nat + 128);
      h := core.compress(h, block[..], count, false);
      used := 0;
      assert block[..used] == message[|message|..];
    }

    method Append(data: seq<uint8>)
      requires InStep() && used + |data| <= 128 && |data| > 0
      modifies this, block
      ensures Valid() && message == old(message) + data
    {
      hide Core.Start, Wrap, Absorb;
      ghost var m, full := message, |message| - used;
      Copy(data);
      message := message + data;
      assert message[full..] == m[full..] + data && message[..full] == m[..full];
      AbsorbSame(core.compress, core.Start(output), m, message, 0, full);
    }

    method Copy(data: seq<uint8>)
      requires used + |data| <= 128 == block.Length
      modifies this`used, block
      ensures used == old(used) + |data| && block[..used] == old(block[..used]) + data
    {
      forall i | 0 <= i < |data| {
        block[used + i] := data[i];
      }
      used := used + |data|;
    }

    /** Pads the last block, compresses it as such, and gives the first bytes of the state. */
    method Final() returns (out: seq<uint8>)
      requires Valid()
      modifies this, block
      ensures out == core.Hash(old(message), output)
    {
      hide Core.Start, Absorb, Bytes, Finish;
      Close();
      out := Bytes(h)[..output];
    }

    /** Compresses the last block, padded and marked, with the count of all bytes. */
    method Close()
      requires Valid()
      modifies this, block
      ensures h == Finish(core.compress, core.Start(output), old(message))
    {
      hide Core.Start, Absorb, LastBlock, Wrap, Filled;
      ghost var m, full := message, |message| - used;
      LastBlockIs(|m|, full);
      WrapAdds(full, used);
      FillOut();
      count := Wrap(count as nat + used);
      h := core.compress(h, block[..], count, true);
    }

    /** Zeros behind the bytes in the buffer. */
    method FillOut()
      requires used <= 128 == block.Length
      modifies block
      ensures block[..] == Filled(old(block[..used]))
    {
      forall i | used <= i < 128 {
        block[i] := 0;
      }
    }
  }

  lemma WrapAdds(n: nat, k: nat)
    ensures Wrap(Wrap(n) as nat + k) == Wrap(n + k)
  {
  }

  lemma LastBlockIs(length: nat, at: nat)
    requires at <= length && at % 128 == 0 && length - at <= 128 && (length > 0 ==> length > at)
    ensures at == LastBlock(length)
  {
  }

  method HashOf(core: Core, data: seq<uint8>, size: nat) returns (out: seq<uint8>)
    requires size <= 64
    ensures out == core.Hash(data, size)
  {
    var b := new Stream(core, size);
    b.Update(data);
    assert [] + data == data;
    out := b.Final();
  }

  /** The variable-length hash, written piece by piece. */
  method LongHashOf(core: Core, data: seq<uint8>, size: nat, out: array<uint8>)
    requires out.Length == size < 0x1_0000_0000
    modifies out
    ensures out[..] == core.LongHash(data, size)
  {
    hide Core.Hash, Core.LongHash, LittleEndian, Stream.Valid;
    core.ShortIsHash(data, size);
    var b := new Stream(core, if size <= 64 then size else 64);
    b.Update(LittleEndian(size, 4));
    b.Update(data);
    assert [] + LittleEndian(size, 4) + data == LittleEndian(size, 4) + data;
    var v := b.Final();
    if size <= 64 {
      Put(out, 0, v);
      assert out[..] == out[..0] + v;
      return;
    }
    WriteChain(core, data, size, v, out);
  }

  /** Half links while more than 64 bytes are left, and then what is left. */
  method WriteChain(core: Core, ghost data: seq<uint8>, size: nat, first: seq<uint8>, out: array<uint8>)
    requires out.Length == size > 64 && first == core.Hash(LittleEndian(size, 4) + data, 64)
    modifies out
    ensures out[..] == core.LongHash(data, size)
  {
    hide Core.Hash, Core.Halves, Core.Link, Core.LongHash, LittleEndian;
    var v := first;
    var at, left := 0, size;
    ghost var i := 1;
    core.ChainBegins(data, size);
    while left > 64
      invariant at + left == size && left > 32 && at == 32 * (i - 1) && i >= 1
      invariant left > 64 ==> v == core.Link(data, size, i)
      invariant left <= 64 ==> i >= 2 && v == core.Link(data, size, i - 1)
      invariant out[..at] == core.Halves(data, size, i - 1)
      decreases left
    {
      core.ChainGoesOn(data, size, i);
      Put(out, at, v[..32]);
      at := at + 32;
      left := left - 32;
      if left > 64 {
        v := HashOf(core, v, 64);
      }
      i := i + 1;
    }
    core.ChainEnds(data, size, i - 1, left);
    var last := HashOf(core, v, left);
    Put(out, at, last);
    assert out[..] == out[..at + left];
  }

  method Put(out: array<uint8>, at: nat, data: seq<uint8>)
    requires at + |data| <= out.Length
    modifies out
    ensures out[..at + |data|] == old(out[..at]) + data
  {
    forall i | 0 <= i < |data| {
      out[at + i] := data[i];
    }
    assert out[..at] == old(out[..at]);
    assert out[..at + |data|] == out[..at] + data;
  }
}
