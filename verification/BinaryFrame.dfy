/** The binary form of a hive message: written in whole bytes, read bit by bit after any padding with zeros. */
module BinaryFrame {
  import opened Words
  import opened Arithmetic
  import opened Bits

  /** The bits of some bytes. */
  function BitsOf(data: seq<uint8>): (b: seq<bool>)
    ensures |b| == 8 * |data|
  {
    if data == [] then [] else Uint(data[0] as nat, 8) + BitsOf(data[1..])
  }

  /** The bytes that begin at some bit. */
  function BytesAt(b: seq<bool>, p: nat, n: nat): (data: seq<uint8>)
    requires p + 8 * n <= |b|
    ensures |data| == n
    decreases n
  {
    BytePower();
    if n == 0 then [] else [Number(b[p..p + 8]) as uint8] + BytesAt(b, p + 8, n - 1)
  }

  lemma {:induction false} BitsOfBytesAt(b: seq<bool>, p: nat, n: nat)
    requires p + 8 * n <= |b|
    ensures BitsOf(BytesAt(b, p, n)) == b[p..p + 8 * n]
    decreases n
  {
    if n > 0 {
      hide Uint, Number;
      var data := BytesAt(b, p, n);
      BitsOfBytesAt(b, p + 8, n - 1);
      UintOfNumber(b[p..p + 8]);
      assert data[1..] == BytesAt(b, p + 8, n - 1);
      assert b[p..p + 8] + b[p + 8..p + 8 * n] == b[p..p + 8 * n];
    }
  }

  lemma {:induction false} BytesAtOfBits(b: seq<bool>, p: nat, data: seq<uint8>)
    requires p + 8 * |data| <= |b| && b[p..p + 8 * |data|] == BitsOf(data)
    ensures BytesAt(b, p, |data|) == data
    decreases |data|
  {
    if data != [] {
      hide Uint, Number;
      var all := b[p..p + 8 * |data|];
      assert all[..8] == b[p..p + 8] && all[8..] == b[p + 8..p + 8 + 8 * |data[1..]|];
      assert BitsOf(data)[..8] == Uint(data[0] as nat, 8) && BitsOf(data)[8..] == BitsOf(data[1..]);
      BytePower();
      NumberOfUint(data[0] as nat, 8);
      BytesAtOfBits(b, p + 8, data[1..]);
    }
  }

  lemma {:induction false} BitsAppend(a: seq<uint8>, b: seq<uint8>)
    ensures BitsOf(a + b) == BitsOf(a) + BitsOf(b)
  {
    if a == [] {
      assert a + b == b;
    } else {
      hide Uint;
      BitsAppend(a[1..], b);
      assert (a + b)[1..] == a[1..] + b;
    }
  }

  // ------------------------------------------------------------------------------- the format

  datatype Frame = Frame(typeId: nat, metadata: seq<uint8>, payload: seq<uint8>)

  datatype Version = Unversioned | Versioned(number: nat)

  datatype Outcome = Invalid | Unsupported | NoMemory | Read(frame: Frame)

  predicate Supported(v: Version) {
    v.Versioned? ==> v.number <= 1
  }

  predicate Fits(f: Frame) {
    f.typeId < 32 && |f.metadata| < 256
  }

  /** A one bit, the version when there is one, the type, no compression, and the two texts, the first with its length. */
  function Layout(v: Version, f: Frame): seq<bool> {
    [true] + Stamp(v) + Uint(f.typeId, 5) + [false] + Uint(|f.metadata|, 8) + BitsOf(f.metadata) + BitsOf(f.payload)
  }

  function Stamp(v: Version): (b: seq<bool>)
    ensures |b| == if v.Versioned? then 9 else 1
  {
    match v
    case Unversioned => [false]
    case Versioned(n) => [true] + Uint(n, 8)
  }

  function Zeros(n: nat): (b: seq<bool>)
    ensures |b| == n && forall i :: 0 <= i < n ==> !b[i]
  {
    seq(n, _ => false)
  }

  // ------------------------------------------------------------------------------- decoding bits

  function FirstOne(b: seq<bool>, i: nat): (k: nat)
    requires i <= |b|
    ensures i <= k <= |b| && (forall j :: i <= j < k ==> !b[j]) && (k < |b| ==> b[k])
    decreases |b| - i
  {
    if i < |b| && !b[i] then FirstOne(b, i + 1) else i
  }

  /** The two texts, from bit p on: as many whole bytes of payload as are left. */
  function ReadTexts(b: seq<bool>, p: nat, typeId: nat, length: nat, metadataCap: nat, payloadCap: nat): Outcome
    requires p <= |b|
  {
    if length + 1 > metadataCap then NoMemory
    else if p + 8 * length > |b| then Invalid
    else
      var q := p + 8 * length;
      var n := (|b| - q) / 8;
      if n + 1 > payloadCap then NoMemory
      else Read(Frame(typeId, BytesAt(b, p, length), BytesAt(b, q, n)))
  }

  function ReadHeader(b: seq<bool>, p: nat, metadataCap: nat, payloadCap: nat): Outcome {
    if p + 14 > |b| then Invalid
    else if b[p + 5] then Unsupported
    else ReadTexts(b, p + 14, Number(b[p..p + 5]), Number(b[p + 6..p + 14]), metadataCap, payloadCap)
  }

  function Decode(b: seq<bool>, metadataCap: nat, payloadCap: nat): Outcome {
    var k := FirstOne(b, 0);
    if k + 1 >= |b| then Invalid
    else if !b[k + 1] then ReadHeader(b, k + 2, metadataCap, payloadCap)
    else if k + 10 > |b| then Invalid
    else if Number(b[k + 2..k + 10]) > 1 then Unsupported
    else ReadHeader(b, k + 10, metadataCap, payloadCap)
  }

  /** The bits spell the frame: padding, the layout, and less than a byte left over. */
  ghost predicate Spells(b: seq<bool>, f: Frame) {
    exists k: nat, v, rest: seq<bool> ::
      Supported(v) && |rest| < 8 && b == Zeros(k) + (Layout(v, f) + rest)
  }

  lemma FirstOneIs(b: seq<bool>, i: nat, k: nat)
    requires i <= k < |b| && (forall j :: i <= j < k ==> !b[j]) && b[k]
    ensures FirstOne(b, i) == k
    decreases k - i
  {
    if i < k {
      FirstOneIs(b, i + 1, k);
    }
  }

  /** The part of the layout from the type on. */
  function Tail(f: Frame): seq<bool> {
    Uint(f.typeId, 5) + ([false] + (Uint(|f.metadata|, 8) + (BitsOf(f.metadata) + BitsOf(f.payload))))
  }

  lemma LayoutTail(v: Version, f: Frame, rest: seq<bool>)
    ensures Layout(v, f) + rest == [true] + (Stamp(v) + (Tail(f) + rest))
  {
    hide Uint, BitsOf, Stamp;
    Regroup([true], Stamp(v), Uint(f.typeId, 5), [false], Uint(|f.metadata|, 8), BitsOf(f.metadata), BitsOf(f.payload), rest);
  }

  lemma Regroup(a: seq<bool>, b: seq<bool>, c: seq<bool>, d: seq<bool>, e: seq<bool>, f: seq<bool>, g: seq<bool>,
                h: seq<bool>)
    ensures a + b + c + d + e + f + g + h == a + (b + ((c + (d + (e + (f + g)))) + h))
  {
  }

  /** Bits that are followed by the tail of a layout are read as the frame. */
  lemma TailReads(b: seq<bool>, p: nat, f: Frame, rest: seq<bool>, metadataCap: nat, payloadCap: nat)
    requires p <= |b| && b[p..] == Tail(f) + rest && |rest| < 8 && Fits(f)
    requires |f.metadata| < metadataCap && |f.payload| < payloadCap
    ensures ReadHeader(b, p, metadataCap, payloadCap) == Read(f)
  {
    hide Uint, Number, BitsOf, BytesAt;
    var m, n := |f.metadata|, |f.payload|;
    var t := b[p..];
    var q := p + 14 + 8 * m;
    Pieces(t, Uint(f.typeId, 5), false, Uint(m, 8), BitsOf(f.metadata), BitsOf(f.payload), rest);
    assert b[p..p + 5] == t[..5] && b[p + 6..p + 14] == t[6..14] && b[p + 5] == t[5];
    assert b[p + 14..q] == t[14..14 + 8 * m] && b[q..q + 8 * n] == t[14 + 8 * m..14 + 8 * m + 8 * n];
    BytePower();
    NumberOfUint(f.typeId, 5);
    NumberOfUint(m, 8);
    BytesAtOfBits(b, p + 14, f.metadata);
    BytesAtOfBits(b, q, f.payload);
  }

  lemma Pieces(t: seq<bool>, a: seq<bool>, bit: bool, c: seq<bool>, d: seq<bool>, e: seq<bool>, rest: seq<bool>)
    requires t == (a + ([bit] + (c + (d + e)))) + rest && |a| == 5 && |c| == 8
    ensures t[..5] == a && t[5] == bit && t[6..14] == c && t[14..14 + |d|] == d
    ensures t[14 + |d|..14 + |d| + |e|] == e && |t| == 14 + |d| + |e| + |rest|
  {
  }

  lemma StampAt(b: seq<bool>, k: nat, v: Version, tail: seq<bool>)
    requires b == Zeros(k) + ([true] + (Stamp(v) + tail))
    ensures k < |b| && b[k] && forall j :: 0 <= j < k ==> !b[j]
    ensures v == Unversioned ==> k + 2 <= |b| && !b[k + 1] && b[k + 2..] == tail
    ensures v.Versioned? ==> k + 10 <= |b| && b[k + 1] && b[k + 2..k + 10] == Uint(v.number, 8) && b[k + 10..] == tail
  {
    hide Uint;
  }

  /** Whatever spells a frame that fits the buffers decodes to it. */
  lemma SpelledDecodes(b: seq<bool>, f: Frame, metadataCap: nat, payloadCap: nat)
    requires Spells(b, f) && Fits(f) && |f.metadata| < metadataCap && |f.payload| < payloadCap
    ensures Decode(b, metadataCap, payloadCap) == Read(f)
  {
    hide Uint, Number, Tail, Layout, ReadHeader;
    var k: nat, v, rest: seq<bool> :| Supported(v) && |rest| < 8 && b == Zeros(k) + (Layout(v, f) + rest);
    LayoutTail(v, f, rest);
    StampAt(b, k, v, Tail(f) + rest);
    FirstOneIs(b, 0, k);
    TailReads(b, if v.Versioned? then k + 10 else k + 2, f, rest, metadataCap, payloadCap);
    if v.Versioned? {
      BytePower();
      NumberOfUint(v.number, 8);
    }
  }

  lemma HeaderSpells(b: seq<bool>, p: nat, f: Frame, metadataCap: nat, payloadCap: nat) returns (rest: seq<bool>)
    requires ReadHeader(b, p, metadataCap, payloadCap) == Read(f)
    ensures p <= |b| && b[p..] == Tail(f) + rest && |rest| < 8 && Fits(f)
    ensures |f.metadata| < metadataCap && |f.payload| < payloadCap
  {
    hide Uint, Number, BitsOf, BytesAt;
    var m, n := |f.metadata|, |f.payload|;
    var q := p + 14 + 8 * m;
    BytePower();
    UintOfNumber(b[p..p + 5]);
    UintOfNumber(b[p + 6..p + 14]);
    BitsOfBytesAt(b, p + 14, m);
    BitsOfBytesAt(b, q, n);
    rest := b[q + 8 * n..];
    Rejoined(b, p, m, n);
  }

  lemma Rejoined(b: seq<bool>, p: nat, m: nat, n: nat)
    requires p + 14 + 8 * m + 8 * n <= |b|
    ensures var q := p + 14 + 8 * m;
            b[p..] == (b[p..p + 5] + ([b[p + 5]] + (b[p + 6..p + 14] + (b[p + 14..q] + b[q..q + 8 * n]))))
                      + b[q + 8 * n..]
  {
  }

  lemma DecodedSpells(b: seq<bool>, f: Frame, metadataCap: nat, payloadCap: nat)
    requires Decode(b, metadataCap, payloadCap) == Read(f)
    ensures Spells(b, f) && Fits(f) && |f.metadata| < metadataCap && |f.payload| < payloadCap
  {
    hide Uint, Number, Tail, Layout, ReadHeader;
    var k := FirstOne(b, 0);
    var v := if b[k + 1] then Versioned(Number(b[k + 2..k + 10])) else Unversioned;
    var p := if b[k + 1] then k + 10 else k + 2;
    var rest := HeaderSpells(b, p, f, metadataCap, payloadCap);
    if b[k + 1] {
      UintOfNumber(b[k + 2..k + 10]);
    }
    LayoutTail(v, f, rest);
    assert b[..k] == Zeros(k);
    StampJoined(b, k, v);
    assert b == Zeros(k) + (Layout(v, f) + rest);
  }

  lemma StampJoined(b: seq<bool>, k: nat, v: Version)
    requires k + 1 < |b| && b[k]
    requires if b[k + 1] then k + 10 <= |b| && v.Versioned? && Uint(v.number, 8) == b[k + 2..k + 10] else v == Unversioned
    ensures b == b[..k] + ([true] + (Stamp(v) + b[if b[k + 1] then k + 10 else k + 2..]))
  {
    hide Uint;
  }

  /** The decoder gives a frame exactly when the bits spell it and it fits the caller's buffers. */
  lemma DecodeIffSpells(b: seq<bool>, f: Frame, metadataCap: nat, payloadCap: nat)
    ensures Decode(b, metadataCap, payloadCap) == Read(f) <==>
            Spells(b, f) && Fits(f) && |f.metadata| < metadataCap && |f.payload| < payloadCap
  {
    hide Decode, Spells;
    if Decode(b, metadataCap, payloadCap) == Read(f) {
      DecodedSpells(b, f, metadataCap, payloadCap);
    }
    if Spells(b, f) && Fits(f) && |f.metadata| < metadataCap && |f.payload| < payloadCap {
      SpelledDecodes(b, f, metadataCap, payloadCap);
    }
  }

  // ------------------------------------------------------------------------------- encoding

  /** The frame in bytes: a marker bit, the type and a zero bit, the length of the metadata, and both texts. */
  function Encode(f: Frame): seq<uint8>
    requires Fits(f)
  {
    [(128 + 2 * f.typeId) as uint8, |f.metadata| as uint8] + f.metadata + f.payload
  }

  lemma FirstByteBits(t: nat)
    requires t < 32
    ensures Uint(128 + 2 * t, 8) == [true] + [false] + Uint(t, 5) + [false]
  {
    assert Uint(128 + 2 * t, 8) == Uint(64 + t, 7) + [false];
    assert Pow2(5) == 32;
    AddHigh(t, 5);
  }

  lemma {:induction false} AddHigh(n: nat, width: nat)
    requires n < Pow2(width)
    ensures Uint(2 * Pow2(width) + n, width + 2) == [true, false] + Uint(n, width)
  {
    if width == 0 {
      assert Uint(1, 1) == [true];
    } else {
      AddHigh(n / 2, width - 1);
      var m := 2 * Pow2(width) + n;
      assert m / 2 == 2 * Pow2(width - 1) + n / 2 && m % 2 == n % 2;
      assert Uint(m, width + 2) == Uint(m / 2, width + 1) + [m % 2 == 1];
    }
  }

  lemma Halves(n: nat, w: nat)
    requires w > 0
    ensures n / 2 / w == n / (2 * w)
  {
    var h, b := n / 2, n % 2;
    var q, r := h / w, h % w;
    assert n == (2 * w) * q + (2 * r + b) by {
      assert h == w * q + r;
      assert 2 * (w * q) == (2 * w) * q;
    }
    QuotientIs(n, 2 * w, q, 2 * r + b);
  }

  lemma EncodeIsLayout(f: Frame)
    requires Fits(f)
    ensures BitsOf(Encode(f)) == Layout(Unversioned, f)
  {
    hide Uint;
    FirstByteBits(f.typeId);
    var head := [(128 + 2 * f.typeId) as uint8, |f.metadata| as uint8];
    assert head[1..] == [head[1]] && [head[1]][1..] == [];
    assert BitsOf(head) == Uint(128 + 2 * f.typeId, 8) + Uint(|f.metadata|, 8);
    BitsAppend(head, f.metadata);
    BitsAppend(head + f.metadata, f.payload);
  }

  lemma {:induction false} ZeroBytes(zeros: seq<uint8>)
    requires forall i :: 0 <= i < |zeros| ==> zeros[i] == 0
    ensures BitsOf(zeros) == Zeros(8 * |zeros|)
  {
    if zeros != [] {
      ZeroBytes(zeros[1..]);
      ZeroUint(8);
    }
  }

  lemma {:induction false} ZeroUint(width: nat)
    ensures Uint(0, width) == Zeros(width)
  {
    if width > 0 {
      ZeroUint(width - 1);
    }
  }

  /** An encoded frame, after any number of zero bytes, decodes to the message it was made from. */
  lemma DecodeEncode(zeros: seq<uint8>, f: Frame, metadataCap: nat, payloadCap: nat)
    requires forall i :: 0 <= i < |zeros| ==> zeros[i] == 0
    requires Fits(f) && |f.metadata| < metadataCap && |f.payload| < payloadCap
    ensures Decode(BitsOf(zeros + Encode(f)), metadataCap, payloadCap) == Read(f)
  {
    hide Uint, Decode, Layout, Encode;
    ZeroBytes(zeros);
    EncodeIsLayout(f);
    BitsAppend(zeros, Encode(f));
    var b := BitsOf(zeros + Encode(f));
    assert Supported(Unversioned);
    assert b == Zeros(8 * |zeros|) + (Layout(Unversioned, f) + []) by {
      assert Layout(Unversioned, f) + [] == Layout(Unversioned, f);
    }
    DecodeIffSpells(b, f, metadataCap, payloadCap);
  }

  // ------------------------------------------------------------------------------- message types

  function TypeId(name: string): (id: int)
    ensures -1 <= id < 13
  {
    if name == "shake" || name == "handshake" then 0
    else if name == "bus" then 1
    else if name == "shared_bus" then 2
    else if name == "broadcast" then 3
    else if name == "propagate" then 4
    else if name == "escalate" then 5
    else if name == "hello" then 6
    else if name == "query" then 7
    else if name == "cascade" then 8
    else if name == "ping" then 9
    else if name == "rendezvous" then 10
    else if name == "3rdparty" then 11
    else if name == "bin" then 12
    else -1
  }

  /** What the decoder calls a type; every number it does not know is a third party's. */
  function TypeName(id: nat): string {
    if id == 0 then "shake"
    else if id == 1 then "bus"
    else if id == 2 then "shared_bus"
    else if id == 3 then "broadcast"
    else if id == 4 then "propagate"
    else if id == 5 then "escalate"
    else if id == 6 then "hello"
    else if id == 7 then "query"
    else if id == 8 then "cascade"
    else if id == 9 then "ping"
    else if id == 10 then "rendezvous"
    else if id == 12 then "bin"
    else "3rdparty"
  }

  function WireType(name: string): (id: nat)
    ensures id < 32
  {
    if TypeId(name) < 0 then 11 else TypeId(name)
  }

  function TypeNames(): (names: seq<string>)
    ensures |names| == 13
  {
    ["shake", "bus", "shared_bus", "broadcast", "propagate", "escalate", "hello", "query", "cascade", "ping", "rendezvous",
     "3rdparty", "bin"]
  }

  lemma NameOfNumber(k: nat)
    requires k < 13
    ensures TypeName(k) == TypeNames()[k]
  {
  }

  lemma NumberOfName(k: nat)
    requires k < 13
    ensures TypeId(TypeNames()[k]) == k
  {
  }

  /** The names in the order of their numbers; a second one stands for number 0. */
  lemma TypesAre(name: string, k: nat)
    requires k < 13
    ensures TypeName(k) == TypeNames()[k]
    ensures TypeId(name) == k <==> name == TypeNames()[k] || (k == 0 && name == "handshake")
  {
    hide TypeNames, TypeName, TypeId;
    NameOfNumber(k);
    NumberOfName(k);
    TypeNameOfWireType(name);
    SecondName();
  }

  lemma SecondName()
    ensures TypeId("handshake") == 0 && TypeName(0) == "shake"
  {
  }

  /** The name survives the wire, but for the handshake's second name and for names outside the table. */
  lemma TypeNameOfWireType(name: string)
    ensures TypeName(WireType(name)) ==
      if TypeId(name) < 0 then "3rdparty" else if name == "handshake" then "shake" else name
  {
  }

  // ------------------------------------------------------------------------------- the program

  datatype Encoded = TooLong | NoRoom | Wrote(n: nat)

  method EncodeBinary(name: string, metadata: seq<uint8>, payload: seq<uint8>, out: array<uint8>) returns (r: Encoded)
    modifies out
    ensures r == if |metadata| > 255 then TooLong
                 else if out.Length < 2 + |metadata| + |payload| then NoRoom
                 else Wrote(2 + |metadata| + |payload|)
    ensures r.Wrote? ==> out[..r.n] == Encode(Frame(WireType(name), metadata, payload))
  {
    hide TypeId;
    var typeId := TypeId(name);
    if typeId < 0 {
      typeId := 11;
    }
    if |metadata| > 255 {
      return TooLong;
    }
    var total := 2 + |metadata| + |payload|;
    if out.Length < total {
      return NoRoom;
    }
    out[0] := (128 + typeId % 32 * 2) as uint8;
    out[1] := |metadata| as uint8;
    assert out[..2] == [out[0], out[1]];
    CopyTo(out, 2, metadata);
    CopyTo(out, 2 + |metadata|, payload);
    r := Wrote(total);
  }

  method CopyTo(out: array<uint8>, at: nat, data: seq<uint8>)
    requires at + |data| <= out.Length
    modifies out
    ensures out[..at + |data|] == old(out[..at]) + data
  {
    forall i | 0 <= i < |data| {
      out[at + i] := data[i];
    }
    assert out[..at] == old(out[..at]);
    assert out[..at + |data|] == out[..at] + data;
  }

  /** Bit i of some bytes, as the reader picks it out. */
  lemma {:induction false} BitAt(data: seq<uint8>, i: nat)
    requires i < 8 * |data|
    ensures BitsOf(data)[i] <==> data[i / 8] as nat / Pow2(7 - i % 8) % 2 == 1
  {
    hide Uint, Pow2;
    if i < 8 {
      UintAt(data[0] as nat, 8, i);
      assert i / 8 == 0 && i % 8 == i;
    } else {
      BitAt(data[1..], i - 8);
      assert (i - 8) / 8 == i / 8 - 1 && (i - 8) % 8 == i % 8;
    }
  }

  lemma {:induction false} UintAt(n: nat, width: nat, i: nat)
    requires i < width
    ensures Uint(n, width)[i] <==> n / Pow2(width - 1 - i) % 2 == 1
  {
    if i < width - 1 {
      UintAt(n / 2, width - 1, i);
      Halves(n, Pow2(width - 2 - i));
    }
  }

  class BitReader {
    const data: seq<uint8>
    var bitPos: nat

    constructor (frame: seq<uint8>)
      ensures data == frame && bitPos == 0
    {
      data := frame;
      bitPos := 0;
    }

    /** The next bit, or -1 at the end. */
    method ReadBit() returns (bit: int)
      requires bitPos <= 8 * |data|
      modifies this
      ensures old(bitPos) < 8 * |data| ==>
        bitPos == old(bitPos) + 1 && bit == if BitsOf(data)[old(bitPos)] then 1 else 0
      ensures old(bitPos) == 8 * |data| ==> bitPos == old(bitPos) && bit == -1
    {
      if bitPos >= 8 * |data| {
        return -1;
      }
      BitAt(data, bitPos);
      bit := data[bitPos / 8] as int / Pow2(7 - bitPos % 8) % 2;
      bitPos := bitPos + 1;
    }

    /** A number of `width` bits, or -1 when the end comes first. */
    method ReadUint(width: nat) returns (value: int)
      requires bitPos <= 8 * |data|
      modifies this
      ensures old(bitPos) + width <= 8 * |data| ==>
        bitPos == old(bitPos) + width && value == Number(BitsOf(data)[old(bitPos)..bitPos])
      ensures old(bitPos) + width > 8 * |data| ==> bitPos == 8 * |data| && value == -1
    {
      hide BitsOf;
      value := 0;
      ghost var b, p := BitsOf(data), bitPos;
      for i := 0 to width
        invariant bitPos == p + i <= 8 * |data| && value == Number(b[p..p + i])
      {
        ghost var before := b[p..p + i];
        var bit := ReadBit();
        if bit < 0 {
          return -1;
        }
        assert b[p..p + i + 1] == before + [b[p + i]];
        value := value * 2 + bit;
      }
    }

    /** Bytes one after the other, into the front of the caller's buffer. */
    method ReadBytes(n: nat, out: array<uint8>) returns (ok: bool)
      requires bitPos <= 8 * |data| && n <= out.Length
      modifies this, out
      ensures ok == (old(bitPos) + 8 * n <= 8 * |data|)
      ensures ok ==> bitPos == old(bitPos) + 8 * n && out[..n] == BytesAt(BitsOf(data), old(bitPos), n)
    {
      hide BitsOf, Number;
      ghost var b, p := BitsOf(data), bitPos;
      BytePower();
      for i := 0 to n
        invariant bitPos == p + 8 * i <= 8 * |data| && out[..i] == BytesAt(b, p, i)
      {
        ghost var before := out[..i];
        var byte := ReadUint(8);
        if byte < 0 {
          return false;
        }
        BytesAtNext(b, p, i);
        out[i] := byte as uint8;
        assert out[..i + 1] == before + [out[i]];
      }
      ok := true;
    }
  }

  lemma {:induction false} BytesAtNext(b: seq<bool>, p: nat, n: nat)
    requires p + 8 * n + 8 <= |b|
    ensures Number(b[p + 8 * n..p + 8 * n + 8]) < 256
    ensures BytesAt(b, p, n + 1) == BytesAt(b, p, n) + [Number(b[p + 8 * n..p + 8 * n + 8]) as uint8]
    decreases n
  {
    hide Number, Pow2;
    BytePower();
    if n > 0 {
      BytesAtNext(b, p + 8, n - 1);
    }
  }

  datatype Decoded = Refused(why: Outcome) | Named(typeId: nat, name: string, metadataLength: nat, payloadLength: nat)

  method DecodeBinary(data: seq<uint8>, metadata: array<uint8>, payload: array<uint8>) returns (r: Decoded)
    requires metadata != payload
    modifies metadata, payload
    ensures var o := Decode(BitsOf(data), metadata.Length, payload.Length);
            if o.Read? then
              && r == Named(o.frame.typeId, TypeName(o.frame.typeId), |o.frame.metadata|, |o.frame.payload|)
              && |o.frame.metadata| < metadata.Length && |o.frame.payload| < payload.Length
              && metadata[..r.metadataLength] == o.frame.metadata && metadata[r.metadataLength] == 0
              && payload[..r.payloadLength] == o.frame.payload && payload[r.payloadLength] == 0
            else r == Refused(o)
  {
    hide BitsOf, Number, BytesAt, FirstOne, ReadHeader, TypeName;
    ghost var b := BitsOf(data);
    var reader := new BitReader(data);
    var bit := reader.ReadBit();
    while bit == 0
      invariant reader.data == data && reader.bitPos <= |b| && fresh(reader)
      invariant bit == -1 ==> reader.bitPos == |b| && FirstOne(b, 0) == |b|
      invariant bit != -1 ==>
        bit in {0, 1} && reader.bitPos > 0 && bit == (if b[reader.bitPos - 1] then 1 else 0)
        && FirstOne(b, 0) == FirstOne(b, reader.bitPos - 1)
      decreases |b| - reader.bitPos, bit
      modifies reader
    {
      bit := reader.ReadBit();
    }
    if bit < 0 {
      return Refused(Invalid);
    }
    var versioned := reader.ReadBit();
    if versioned < 0 {
      return Refused(Invalid);
    }
    if versioned == 1 {
      var version := reader.ReadUint(8);
      if version < 0 {
        return Refused(Invalid);
      }
      if version > 1 {
        return Refused(Unsupported);
      }
    }
    r := DecodeHeader(reader, metadata, payload);
  }

  /** What the header and the texts come to, from the reader's place on. */
  method DecodeHeader(reader: BitReader, metadata: array<uint8>, payload: array<uint8>) returns (r: Decoded)
    requires reader.bitPos <= 8 * |reader.data| && metadata != payload
    modifies reader, metadata, payload
    ensures var o := ReadHeader(BitsOf(reader.data), old(reader.bitPos), metadata.Length, payload.Length);
            if o.Read? then
              && r == Named(o.frame.typeId, TypeName(o.frame.typeId), |o.frame.metadata|, |o.frame.payload|)
              && |o.frame.metadata| < metadata.Length && |o.frame.payload| < payload.Length
              && metadata[..r.metadataLength] == o.frame.metadata && metadata[r.metadataLength] == 0
              && payload[..r.payloadLength] == o.frame.payload && payload[r.payloadLength] == 0
            else r == Refused(o)
  {
    hide BitsOf, Number, BytesAt, TypeName;
    ghost var b := BitsOf(reader.data);
    var typeId := reader.ReadUint(5);
    var compressed := reader.ReadBit();
    var metadataLength := reader.ReadUint(8);
    if typeId < 0 || compressed < 0 || metadataLength < 0 {
      return Refused(Invalid);
    }
    if compressed == 1 {
      return Refused(Unsupported);
    }
    if metadataLength + 1 > metadata.Length {
      return Refused(NoMemory);
    }
    var ok := reader.ReadBytes(metadataLength, metadata);
    if !ok {
      return Refused(Invalid);
    }
    metadata[metadataLength] := 0;
    ghost var text := metadata[..metadataLength];
    var remaining := (8 * |reader.data| - reader.bitPos) / 8;
    if remaining + 1 > payload.Length {
      return Refused(NoMemory);
    }
    ok := reader.ReadBytes(remaining, payload);
    payload[remaining] := 0;
    assert metadata[..metadataLength] == text;
    r := Named(typeId, TypeName(typeId), metadataLength, remaining);
  }
}
