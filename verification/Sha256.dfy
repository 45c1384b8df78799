/** SHA-256 as a stream (FIPS 180-4, sections 5.1.1 and 6.2) over a compression function that stays abstract. */
module Sha256 {
  import opened Words
  import opened Arithmetic
  import opened Octets

  type State = s: seq<uint32> | |s| == 8 witness [0, 0, 0, 0, 0, 0, 0, 0]

  const IV: State := [0x6a09e667, 0xbb67ae85, 0x3c6ef372, 0xa54ff53a, 0x510e527f, 0x9b05688c, 0x1f83d9ab, 0x5be0cd19]

  // ------------------------------------------------------------------------------- the standard

  /** The number of zero bytes that bring the message, its marker and the zeros to 56 modulo 64. */
  function Gap(length: nat): (k: nat)
    ensures k < 64 && (length + 1 + k) % 64 == 56 && (length + 1 + k + 8) % 64 == 0
  {
    (119 - length % 64) % 64
  }

  /** Section 5.1.1: the message, a single one bit, zeros, and the length of the message in bits. */
  function Pad(m: seq<uint8>): (p: seq<uint8>)
    ensures |p| == |m| + 1 + Gap(|m|) + 8 && |p| % 64 == 0
  {
    m + [0x80] + Zeros(Gap(|m|)) + LengthField(|m|)
  }

  function LengthField(length: nat): (s: seq<uint8>)
    ensures |s| == 8
  {
    BigEndian(8 * length % WRAP, 8)
  }

  /** Section 6.2.2: one compression for each block of 64 bytes. */
  function Fold(f: (State, seq<uint8>) -> State, s: State, m: seq<uint8>): State
    requires |m| % 64 == 0
    decreases |m|
  {
    if m == [] then s else Fold(f, f(s, m[..64]), m[64..])
  }

  function Serialize(s: seq<uint32>): (r: seq<uint8>)
    ensures |r| == 4 * |s|
  {
    if s == [] then [] else BigEndian(s[0] as nat, 4) + Serialize(s[1..])
  }

  function Hash(f: (State, seq<uint8>) -> State, m: seq<uint8>): (h: seq<uint8>)
    ensures |h| == 32
  {
    Serialize(Fold(f, IV, Pad(m)))
  }

  lemma {:induction false} FoldAppend(f: (State, seq<uint8>) -> State, s: State, a: seq<uint8>, b: seq<uint8>)
    requires |a| % 64 == 0 && |b| % 64 == 0
    ensures Fold(f, s, a + b) == Fold(f, Fold(f, s, a), b)
    decreases |a|
  {
    if a == [] {
      assert a + b == b;
    } else {
      FoldAppend(f, f(s, a[..64]), a[64..], b);
      assert (a + b)[..64] == a[..64] && (a + b)[64..] == a[64..] + b;
    }
  }

  lemma FoldOne(f: (State, seq<uint8>) -> State, s: State, b: seq<uint8>)
    requires |b| == 64
    ensures Fold(f, s, b) == f(s, b)
  {
    assert b[..64] == b && b[64..] == [];
  }

  lemma Extended(m: seq<uint8>, data: seq<uint8>, full: nat)
    requires full <= |m|
    ensures (m + data)[..full] == m[..full] && (m + data)[full..] == m[full..] + data
  {
  }

  /** Different messages are padded differently, as long as their length in bits fits its field. */
  lemma PadInjective(a: seq<uint8>, b: seq<uint8>)
    requires 8 * |a| < WRAP && 8 * |b| < WRAP && Pad(a) == Pad(b)
    ensures a == b
  {
    hide BigEndian, Pow256, Gap, Zeros;
    var p, n := Pad(a), |Pad(a)| - 8;
    assert p[n..] == BigEndian(8 * |a|, 8) && Pad(b)[n..] == BigEndian(8 * |b|, 8);
    EightBytes();
    BigEndianInjective(8 * |a|, 8 * |b|, 8);
    assert p[..|a|] == a && Pad(b)[..|b|] == b;
  }

  // ------------------------------------------------------------------------------- the stream

  class Context {
    const compress: (State, seq<uint8>) -> State
    var state: State
    var length: uint64
    const buffer: array<uint8>
    var buffered: nat
    /** Every byte taken in so far. */
    ghost var message: seq<uint8>

    ghost predicate Valid()
      reads this, buffer
    {
      var full := |message| - buffered;
      && buffer.Length == 64 && buffered < 64 && full >= 0 && full % 64 == 0
      && buffer[..buffered] == message[full..]
      && state == Fold(compress, IV, message[..full])
    }

    /** The count of bits, which padding no longer has to keep. */
    ghost predicate Counted()
      reads this
    {
      length as nat == 8 * |message| % WRAP
    }

    constructor (f: (State, seq<uint8>) -> State)
      ensures Valid() && Counted() && fresh(buffer) && message == [] && compress == f
    {
      compress := f;
      state := IV;
      length := 0;
      buffer := new uint8[64](_ => 0);
      buffered := 0;
      message := [];
    }

    /** Takes in bytes, compressing the buffer as soon as it is full. */
    method Update(data: seq<uint8>)
      requires Valid()
      modifies this, buffer
      ensures Valid() && message == old(message) + data
      ensures old(Counted()) ==> Counted()
    {
      hide Fold;
      Count(|data|);
      BufferedIs();
      hide Valid;
      var rest := data;
      while |rest| > 0
        invariant Valid() && message + rest == old(message) + data
        invariant length as nat == (old(length) as nat + 8 * |data|) % WRAP
        invariant buffered == |message| % 64
        decreases |rest|
      {
        var take := if 64 - buffered > |rest| then |rest| else 64 - buffered;
        Absorb(rest[..take]);
        BufferedIs();
        assert rest[..take] + rest[take..] == rest;
        rest := rest[take..];
      }
      assert message + rest == message;
      CountAdds(|old(message)|, |data|);
    }

    lemma CountAdds(n: nat, k: nat)
      ensures (8 * n % WRAP + 8 * k) % WRAP == 8 * (n + k) % WRAP
    {
    }

    method Count(bytes: nat)
      modifies this`length
      ensures length as nat == (old(length) as nat + 8 * bytes) % WRAP
    {
      length := ((length as nat + 8 * bytes) % WRAP) as uint64;
    }

    /** Takes in as many bytes as the buffer has room for. */
    method Absorb(data: seq<uint8>)
      requires Valid() && 0 < |data| <= 64 - buffered
      modifies this, buffer
      ensures Valid() && message == old(message) + data && length == old(length)
    {
      hide Fold;
      ghost var m, full := message, |message| - buffered;
      forall i | 0 <= i < |data| {
        buffer[buffered + i] := data[i];
      }
      message := message + data;
      buffered := buffered + |data|;
      Extended(m, data, full);
      assert buffer[..buffered] == m[full..] + data;
      if buffered == 64 {
        FoldAppend(compress, IV, message[..full], message[full..]);
        assert message[..full] + message[full..] == message == message[..|message|];
        FoldOne(compress, Fold(compress, IV, message[..full]), buffer[..64]);
        state := compress(state, buffer[..64]);
        buffered := 0;
        assert buffer[..buffered] == message[|message|..];
      }
    }

    /** Pads, puts the length in the last eight bytes of the buffer, and gives the hash. */
    method Final() returns (out: seq<uint8>)
      requires Valid() && Counted()
      modifies this, buffer
      ensures out == Hash(compress, old(message))
    {
      hide BigEndian, Zeros, Fold, Serialize;
      var bits := length;
      AddPadding();
      Close(BigEndian(bits as nat, 8));
      out := Serialize(state);
    }

    /** The marker and the zeros, a byte at a time. */
    method AddPadding()
      requires Valid()
      modifies this, buffer
      ensures Valid() && buffered == 56 && message == old(message) + [0x80] + Zeros(Gap(|old(message)|))
    {
      hide Zeros, Gap, Valid;
      ghost var m := message;
      Update([0x80]);
      ghost var k := 0;
      NoZeros(message);
      BufferedIs();
      while buffered != 56
        invariant Valid() && k <= Gap(|m|) && message == m + [0x80] + Zeros(k)
        invariant buffered == (|m| + 1 + k) % 64
        decreases Gap(|m|) - k
      {
        GapReached(|m|, k);
        Update([0]);
        OneMoreZero(m + [0x80], k);
        BufferedIs();
        k := k + 1;
      }
      GapReached(|m|, k);
    }

    lemma BufferedIs()
      requires Valid()
      ensures buffered == |message| % 64
    {
    }

    /** Compresses the last block, its final eight bytes written past the count of bits. */
    method Close(tail: seq<uint8>)
      requires Valid() && buffered == 56 && |tail| == 8
      modifies this, buffer
      ensures |old(message) + tail| % 64 == 0 && state == Fold(compress, IV, old(message) + tail)
    {
      forall i | 0 <= i < 8 {
        buffer[56 + i] := tail[i];
      }
      ghost var full, p := |message| - 56, message + tail;
      assert buffer[..] == p[full..] && p[..full] == message[..full] && p[..full] + p[full..] == p;
      FoldAppend(compress, IV, p[..full], p[full..]);
      assert p[full..][64..] == [] && p[full..][..64] == buffer[..];
      state := compress(state, buffer[..]);
    }
  }

  /** The one-shot form. */
  method Digest(f: (State, seq<uint8>) -> State, data: seq<uint8>) returns (out: seq<uint8>)
    ensures out == Hash(f, data)
  {
    var c := new Context(f);
    c.Update(data);
    assert [] + data == data;
    out := c.Final();
  }

  lemma GapReached(length: nat, k: nat)
    requires k <= Gap(length)
    ensures (length + 1 + k) % 64 == 56 <==> k == Gap(length)
  {
  }

  lemma NoZeros(m: seq<uint8>)
    ensures m + Zeros(0) == m
  {
  }

  lemma OneMoreZero(m: seq<uint8>, k: nat)
    ensures m + Zeros(k) + [0] == m + Zeros(k + 1)
  {
    assert Zeros(k) + [0] == Zeros(k + 1);
  }
}
