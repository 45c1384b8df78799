/** Which bits are a binary frame, told by the numbers that stand in them, and what is wrong with the others. */
module FrameBits {
  import opened Words
  import opened Arithmetic
  import opened Bits
  import opened BinaryFrame

  /** The highest bit of each byte comes first. */
  lemma {:induction false} BitsAre(data: seq<uint8>, k: nat, j: nat)
    requires k < |data| && j < 8
    ensures BitsOf(data)[8 * k + j] == (data[k] as nat / Pow2(7 - j) % 2 == 1)
  {
    hide Uint;
    if k == 0 {
      UintBit(data[0] as nat, 8, j);
    } else {
      BitsAre(data[1..], k - 1, j);
      assert BitsOf(data)[8 * k + j] == BitsOf(data[1..])[8 * (k - 1) + j];
    }
  }

  /** From bit p on stand these bytes. */
  ghost predicate BytesStand(b: seq<bool>, p: nat, data: seq<uint8>) {
    p + 8 * |data| <= |b| && forall k :: 0 <= k < |data| ==> Number(b[p + 8 * k..p + 8 * k + 8]) == data[k] as nat
  }

  lemma {:induction false} BytesAtIs(b: seq<bool>, p: nat, n: nat)
    requires p + 8 * n <= |b|
    ensures BytesStand(b, p, BytesAt(b, p, n))
    decreases n
  {
    hide Number;
    if n > 0 {
      var data, rest := BytesAt(b, p, n), BytesAt(b, p + 8, n - 1);
      BytesAtIs(b, p + 8, n - 1);
      BytePower();
      forall k | 0 <= k < n
        ensures Number(b[p + 8 * k..p + 8 * k + 8]) == data[k] as nat
      {
        if k > 0 {
          assert data[k] == rest[k - 1] && p + 8 + 8 * (k - 1) == p + 8 * k;
        }
      }
    }
  }

  lemma BytesOnly(b: seq<bool>, p: nat, data: seq<uint8>)
    requires BytesStand(b, p, data)
    ensures data == BytesAt(b, p, |data|)
  {
    hide Number, BytesAt;
    BytesAtIs(b, p, |data|);
    var other := BytesAt(b, p, |data|);
    forall k | 0 <= k < |data|
      ensures data[k] == other[k]
    {
    }
  }

  /** The first one bit, behind the padding. */
  ghost predicate Marked(b: seq<bool>, k: nat) {
    k < |b| && b[k] && forall j :: 0 <= j < k ==> !b[j]
  }

  lemma MarkedIff(b: seq<bool>, k: nat)
    ensures Marked(b, k) <==> k == FirstOne(b, 0) < |b|
  {
    if Marked(b, k) {
      var f := FirstOne(b, 0);
      assert !(f < k) && !(k < f);
    }
  }

  /** A bit behind the marker says whether eight bits of version follow, which must be 0 or 1; then the header begins. */
  ghost predicate Begins(b: seq<bool>, k: nat, h: nat) {
    && Marked(b, k) && k + 1 < |b|
    && if b[k + 1] then h == k + 10 <= |b| && Number(b[k + 2..k + 10]) <= 1 else h == k + 2
  }

  /** Five bits of type, a bit for compression, eight bits of length, the metadata, and what whole bytes are left. */
  ghost predicate Header(b: seq<bool>, h: nat, f: Frame) {
    && h + 14 <= |b| && Number(b[h..h + 5]) == f.typeId && !b[h + 5] && Number(b[h + 6..h + 14]) == |f.metadata|
    && BytesStand(b, h + 14, f.metadata) && BytesStand(b, h + 14 + 8 * |f.metadata|, f.payload)
    && |b| - (h + 14 + 8 * |f.metadata| + 8 * |f.payload|) < 8
  }

  ghost predicate IsFrame(b: seq<bool>, f: Frame) {
    exists k, h :: Begins(b, k, h) && Header(b, h, f)
  }

  lemma HeaderIff(b: seq<bool>, h: nat, f: Frame, metadataCap: nat, payloadCap: nat)
    ensures ReadHeader(b, h, metadataCap, payloadCap) == Read(f)
       <==> Header(b, h, f) && |f.metadata| < metadataCap && |f.payload| < payloadCap
  {
    hide Number, BytesAt, BytesStand;
    if h + 14 <= |b| && !b[h + 5] {
      var length := Number(b[h + 6..h + 14]);
      if h + 14 + 8 * length <= |b| {
        BytesAtIs(b, h + 14, length);
        var q := h + 14 + 8 * length;
        BytesAtIs(b, q, (|b| - q) / 8);
      }
      if Header(b, h, f) {
        StandsWithin(b, h + 14, f.metadata);
        StandsWithin(b, h + 14 + 8 * |f.metadata|, f.payload);
        BytesOnly(b, h + 14, f.metadata);
        BytesOnly(b, h + 14 + 8 * |f.metadata|, f.payload);
      }
    }
  }

  lemma StandsWithin(b: seq<bool>, p: nat, data: seq<uint8>)
    requires BytesStand(b, p, data)
    ensures p + 8 * |data| <= |b|
  {
  }

  /** The decoder gives a frame exactly when the bits are that frame and both texts fit their buffers. */
  lemma ReadsIff(b: seq<bool>, f: Frame, metadataCap: nat, payloadCap: nat)
    ensures Decode(b, metadataCap, payloadCap) == Read(f)
       <==> IsFrame(b, f) && |f.metadata| < metadataCap && |f.payload| < payloadCap
  {
    hide Number, ReadHeader, Header, Marked, FirstOne;
    var k := FirstOne(b, 0);
    FirstWithin(b);
    MarkedIff(b, k);
    if k + 2 <= |b| {
      var h := if b[k + 1] then k + 10 else k + 2;
      HeaderIff(b, h, f, metadataCap, payloadCap);
      assert Begins(b, k, h) && Header(b, h, f) ==> IsFrame(b, f);
    }
    forall i, h | Begins(b, i, h) && Header(b, h, f)
      ensures i == k && h == if b[k + 1] then k + 10 else k + 2
    {
      MarkedIff(b, i);
    }
  }

  lemma FirstWithin(b: seq<bool>)
    ensures FirstOne(b, 0) <= |b|
  {
  }

  /** The version is above 1. */
  ghost predicate LaterVersion(b: seq<bool>, k: nat) {
    Marked(b, k) && k + 10 <= |b| && b[k + 1] && Number(b[k + 2..k + 10]) > 1
  }

  ghost predicate Compressed(b: seq<bool>, k: nat, h: nat) {
    Begins(b, k, h) && h + 14 <= |b| && b[h + 5]
  }

  /** Bits are of an unsupported kind exactly when they have a later version or a complete header that says compressed. */
  lemma UnsupportedIff(b: seq<bool>, metadataCap: nat, payloadCap: nat)
    ensures Decode(b, metadataCap, payloadCap) == Unsupported <==>
            (exists k :: LaterVersion(b, k)) || (exists k, h :: Compressed(b, k, h))
  {
    hide Number, ReadTexts, Marked, FirstOne;
    var k := FirstOne(b, 0);
    FirstWithin(b);
    MarkedIff(b, k);
    forall i | Marked(b, i)
      ensures i == k < |b|
    {
      MarkedIff(b, i);
    }
    if k + 2 <= |b| {
      var h := if b[k + 1] then k + 10 else k + 2;
      TextsSupported(b, h + 14, metadataCap, payloadCap);
      assert Decode(b, metadataCap, payloadCap) == Unsupported <==> LaterVersion(b, k) || Compressed(b, k, h);
    }
  }

  lemma TextsSupported(b: seq<bool>, p: nat, metadataCap: nat, payloadCap: nat)
    ensures forall t, n :: p <= |b| ==> ReadTexts(b, p, t, n, metadataCap, payloadCap) != Unsupported
  {
  }

  /** There is room for none only if a header is there, and its metadata or else the rest does not fit. */
  ghost predicate Cramped(b: seq<bool>, k: nat, h: nat, metadataCap: nat, payloadCap: nat) {
    && Begins(b, k, h) && h + 14 <= |b| && !b[h + 5]
    && var n := Number(b[h + 6..h + 14]);
       n >= metadataCap || (h + 14 + 8 * n <= |b| && (|b| - (h + 14 + 8 * n)) / 8 >= payloadCap)
  }

  lemma NoMemoryIff(b: seq<bool>, metadataCap: nat, payloadCap: nat)
    ensures Decode(b, metadataCap, payloadCap) == NoMemory <==> exists k, h :: Cramped(b, k, h, metadataCap, payloadCap)
  {
    hide Number, Marked, FirstOne, BytesAt;
    var k := FirstOne(b, 0);
    FirstWithin(b);
    MarkedIff(b, k);
    forall i | Marked(b, i)
      ensures i == k < |b|
    {
      MarkedIff(b, i);
    }
    if k + 2 <= |b| {
      var h := if b[k + 1] then k + 10 else k + 2;
      assert Decode(b, metadataCap, payloadCap) == NoMemory <==> Cramped(b, k, h, metadataCap, payloadCap);
    }
  }

  /** What is written: no padding, no version, and the header. */
  lemma EncodedIs(f: Frame)
    requires Fits(f)
    ensures var b := BitsOf(Encode(f)); Begins(b, 0, 2) && Header(b, 2, f)
  {
    hide Uint, Number, Decode, Encode, Header;
    var b := BitsOf(Encode(f));
    EncodeIsLayout(f);
    LayoutStarts(f);
    assert [] + Encode(f) == Encode(f);
    DecodeEncode([], f, |f.metadata| + 1, |f.payload| + 1);
    ReadsIff(b, f, |f.metadata| + 1, |f.payload| + 1);
  }

  lemma LayoutStarts(f: Frame)
    ensures var b := Layout(Unversioned, f); |b| >= 2 && b[0] && !b[1]
  {
    hide Uint, BitsOf;
    FirstTwo(f);
  }

  lemma FirstTwo(f: Frame)
    ensures Layout(Unversioned, f)[..2] == [true, false]
  {
    hide Uint, BitsOf;
  }
}
