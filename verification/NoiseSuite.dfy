/**
 * The primitives the library plugs into Noise: X25519, AES-GCM, and HMAC over SHA-256. The block cipher and the
 * compression function stay abstract; everything the handshake needs of the rest is proved, except that X25519 commutes.
 */
module NoiseSuite {
  import opened Words
  import opened Bits
  import opened Octets
  import opened NoiseSession
  import opened NoiseLifecycle
  import Encoding
  import X25519
  import LadderTheory
  import Gf128
  import Gcm
  import Sha256

  type Cipher = Gf128.Block -> Gf128.Block
  type Compression = (Sha256.State, seq<uint8>) -> Sha256.State

  // -------------------------------------------------------------------------------------- exchanges

  /** The shared secret's number for a private and a public key. */
  ghost function SecretNumber(key: Bytes, point: Bytes): (n: nat)
    requires |key| == |point| == 32
  {
    X25519.ScalarMultiply(BytesValue(X25519.Clamp(key)), BytesValue(X25519.DropTopBit(point)))
  }

  ghost function Exchange(key: Bytes, point: Bytes): Option<Bytes> {
    if |key| != 32 || |point| != 32 || SecretNumber(key, point) == 0 then None
    else Some(LittleEndian(SecretNumber(key, point), 32))
  }

  /** What the limb program writes is this exchange, and it reports the all-zero result exactly when there is none. */
  method ExchangeInto(out: array<uint8>, key: Bytes, point: Bytes) returns (rc: int)
    requires out.Length == |key| == |point| == 32
    modifies out
    ensures Exchange(key, point) == if rc == 0 then Some(out[..]) else None
  {
    rc := X25519.Compute(key, point, out);
    LittleEndianSpells(out[..]);
    LadderTheory.ZeroBytes(out[..]);
  }

  // --------------------------------------------------------------------------------------- hashing

  function Padded(key: Bytes, mask: bv8): (p: Bytes)
    ensures |p| == 64
  {
    seq(64, i requires 0 <= i < 64 => WordOf((if i < 32 && i < |key| then VectorOf(key[i]) else 0) ^ mask))
  }

  /** RFC 2104, section 2, with keys shorter than a block. */
  function Hmac(f: Compression, key: Bytes, data: Bytes): Bytes {
    Sha256.Hash(f, Padded(key, 0x5c) + Sha256.Hash(f, Padded(key, 0x36) + data))
  }

  /** Two hashes, one inside the other, behind the key mixed with 54 and with 92 and filled up with these to 64 bytes. */
  lemma HmacIs(f: Compression, key: Bytes, data: Bytes) returns (inner: Bytes, outer: Bytes)
    requires |key| <= 32
    ensures |inner| == |outer| == 64 && Hmac(f, key, data) == Sha256.Hash(f, outer + Sha256.Hash(f, inner + data))
    ensures forall i :: 0 <= i < |key| ==> VectorOf(inner[i]) == VectorOf(key[i]) ^ 54 && VectorOf(outer[i]) == VectorOf(key[i]) ^ 92
    ensures forall i :: |key| <= i < 64 ==> inner[i] == 54 && outer[i] == 92
  {
    hide Sha256.Hash, WordOf, VectorOf;
    inner, outer := Padded(key, 0x36), Padded(key, 0x5c);
    forall i | 0 <= i < |key|
      ensures VectorOf(inner[i]) == VectorOf(key[i]) ^ 54 && VectorOf(outer[i]) == VectorOf(key[i]) ^ 92
    {
      SameVector(VectorOf(key[i]) ^ 0x36);
      SameVector(VectorOf(key[i]) ^ 0x5c);
    }
    PadBytes();
  }

  lemma PadBytes()
    ensures WordOf(0 ^ 0x36) == 54 && WordOf(0 ^ 0x5c) == 92
  {
    hide WordOf;
    WordOfIs(0 ^ 0x36);
    WordOfIs(0 ^ 0x5c);
  }

  /** The digest of two pieces, never put together. */
  method DigestPair(f: Compression, a: Bytes, b: Bytes) returns (out: Bytes)
    ensures out == Sha256.Hash(f, a + b)
  {
    hide *;
    var h := new Sha256.Context(f);
    h.Update(a);
    assert h.message == [] + a == a;
    h.Update(b);
    out := h.Final();
  }

  method ComputeHmac(f: Compression, key: Bytes, data: Bytes) returns (out: Bytes)
    requires |key| == 32
    ensures out == Hmac(f, key, data)
  {
    var inner := DigestPair(f, Padded(key, 0x36), data);
    out := DigestPair(f, Padded(key, 0x5c), inner);
  }

  // --------------------------------------------------------------------------------------- sealing

  function SealBytes(cipher: Cipher, nonce: Bytes, ad: Bytes, text: Bytes): (box: Bytes)
    ensures |box| == |text| + 16
  {
    var sealed := Gcm.Seal(cipher, VectorsOf(nonce), VectorsOf(ad), VectorsOf(text));
    WordsOf(sealed.ciphertext) + WordsOf(sealed.tag)
  }

  function OpenBytes(cipher: Cipher, nonce: Bytes, ad: Bytes, box: Bytes): Option<Bytes> {
    if |box| < 16 then None
    else
      var n := |box| - 16;
      match Gcm.Open(cipher, VectorsOf(nonce), VectorsOf(ad), Gcm.Sealed(VectorsOf(box[..n]), VectorsOf(box[n..])))
      case Refused => None
      case Plain(text) => Some(WordsOf(text))
  }

  /** A box of bytes opens to a text exactly when it is that text sealed. */
  lemma BytesOpenIffSealed(cipher: Cipher, nonce: Bytes, ad: Bytes, box: Bytes, text: Bytes)
    ensures OpenBytes(cipher, nonce, ad, box) == Some(text) <==> box == SealBytes(cipher, nonce, ad, text)
  {
    hide Gcm.Seal, Gcm.Open;
    var sealed := Gcm.Seal(cipher, VectorsOf(nonce), VectorsOf(ad), VectorsOf(text));
    VectorsAndBack(sealed.ciphertext);
    VectorsAndBack(sealed.tag);
    WordsAndBack(text);
    if |box| >= 16 {
      var n := |box| - 16;
      var parts := Gcm.Sealed(VectorsOf(box[..n]), VectorsOf(box[n..]));
      WordsAndBack(box[..n]);
      WordsAndBack(box[n..]);
      assert box == box[..n] + box[n..];
      Gcm.OpensIffSealed(cipher, VectorsOf(nonce), VectorsOf(ad), parts, VectorsOf(text));
      if Gcm.Open(cipher, VectorsOf(nonce), VectorsOf(ad), parts).Plain? {
        VectorsAndBack(Gcm.Open(cipher, VectorsOf(nonce), VectorsOf(ad), parts).text);
      }
    }
  }

  // --------------------------------------------------------------------------------------- the suite

  ghost function Suite(f: Compression, ciphers: Bytes -> Cipher): Crypto {
    Crypto(data => Sha256.Hash(f, data), (key, data) => Hmac(f, key, data), (key, point) => Exchange(key, point),
           (key, nonce, ad, text) => SealBytes(ciphers(key), nonce, ad, text),
           (key, nonce, ad, box) => OpenBytes(ciphers(key), nonce, ad, box))
  }

  /** The one fact about the curve that is not proved here: scalar multiples commute. */
  ghost predicate ExchangeCommutes() {
    forall a, b :: Exchange(a, BASE_POINT).Some? && Exchange(b, BASE_POINT).Some? ==>
      Exchange(a, Exchange(b, BASE_POINT).value) == Exchange(b, Exchange(a, BASE_POINT).value)
  }

  /** All else the Noise theorems ask of their primitives holds of these, whatever the block cipher and the compression. */
  lemma SuiteIsLawful(f: Compression, ciphers: Bytes -> Cipher)
    requires ExchangeCommutes()
    ensures Lawful(Suite(f, ciphers))
  {
    hide SealBytes, OpenBytes, Exchange, Hmac, Sha256.Hash;
    var c := Suite(f, ciphers);
    forall k: Bytes, b: Bytes
      ensures c.dh(k, b).Some? ==> |c.dh(k, b).value| == 32
    {
      ExchangeLength(k, b);
    }
    forall k: Bytes, n: Bytes, ad: Bytes, p: Bytes
      ensures c.aeadOpen(k, n, ad, c.aeadSeal(k, n, ad, p)) == Some(p)
    {
      BytesOpenIffSealed(ciphers(k), n, ad, SealBytes(ciphers(k), n, ad, p), p);
    }
    forall k: Bytes, n: Bytes, ad: Bytes, b: Bytes
      ensures c.aeadOpen(k, n, ad, b).Some? ==> |c.aeadOpen(k, n, ad, b).value| + 16 == |b|
    {
      var r := OpenBytes(ciphers(k), n, ad, b);
      if r.Some? {
        BytesOpenIffSealed(ciphers(k), n, ad, b, r.value);
      }
    }
    assert forall a :: Public(c, a) == Exchange(a, BASE_POINT);
  }

  lemma ExchangeLength(key: Bytes, point: Bytes)
    ensures Exchange(key, point).Some? ==> |Exchange(key, point).value| == 32
  {
  }

  /** And nothing opens but what was sealed; this needs no hypothesis. */
  lemma SuiteIsAuthentic(f: Compression, ciphers: Bytes -> Cipher)
    ensures Authentic(Suite(f, ciphers))
  {
    hide SealBytes, OpenBytes, Exchange, Hmac, Sha256.Hash;
    var c := Suite(f, ciphers);
    forall k: Bytes, n: Bytes, ad: Bytes, b: Bytes, p: Bytes | c.aeadOpen(k, n, ad, b) == Some(p)
      ensures b == c.aeadSeal(k, n, ad, p)
    {
      BytesOpenIffSealed(ciphers(k), n, ad, b, p);
    }
    forall x: Bytes
      ensures |c.hash(x)| == 32
    {
      assert c.hash(x) == Sha256.Hash(f, x);
    }
  }
}
