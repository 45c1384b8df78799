/**
 * What the five handshake messages are made of, written out: the chain of values mixed into the keys and the hash, the
 * keys that seal the parts of a message.
 */
module NoiseTranscript {
  import opened Status
  import opened Words
  import opened NoiseSession
  import opened NoiseLifecycle

  /** Chaining key, transcript hash and message key. */
  datatype Chain = Chain(ck: Bytes, hash: Bytes, key: Bytes)

  /** One value mixed in: into the hash, into both keys, or into keys and hash. */
  datatype Mix = Hash(data: Bytes) | Key(secret: Bytes) | Both(secret: Bytes)

  /** RFC 5869 without any info: the i-th block of output. */
  function Output(c: Crypto, ck: Bytes, secret: Bytes, i: nat): Bytes
    requires 1 <= i <= 3
  {
    c.hmac(c.hmac(ck, secret), (if i == 1 then [] else Output(c, ck, secret, i - 1)) + [i as uint8])
  }

  function Mixed(c: Crypto, x: Chain, m: Mix): Chain {
    match m
    case Hash(data) => Chain(x.ck, c.hash(x.hash + data), x.key)
    case Key(d) => Chain(Output(c, x.ck, d, 1), x.hash, Output(c, x.ck, d, 2))
    case Both(d) => Chain(Output(c, x.ck, d, 1), c.hash(x.hash + Output(c, x.ck, d, 2)), Output(c, x.ck, d, 3))
  }

  function After(c: Crypto, x: Chain, ms: seq<Mix>): Chain
    decreases |ms|
  {
    if ms == [] then x else Mixed(c, After(c, x, ms[..|ms| - 1]), ms[|ms| - 1])
  }

  /** A text sealed with the n-th nonce of a key, n being 0 or 1. */
  function Box(c: Crypto, key: Bytes, n: uint8, ad: Bytes, text: Bytes): Bytes {
    c.aeadSeal(key, [0, 0, 0, 0, 0, 0, 0, 0, 0, 0, 0, n], ad, text)
  }

  // ------------------------------------------------------------------------------- the five messages

  /** XX, `e`. */
  ghost predicate XXFirst(c: Crypto, x: Chain, e: Bytes, payload: Bytes, message: Bytes, y: Chain) {
    var a := After(c, x, [Hash(e), Key(e)]);
    var box := Box(c, a.key, 0, a.hash, payload);
    message == e + box && y == After(c, a, [Hash(box)])
  }

  /** XX, `e, ee, s, es, psk`. */
  ghost predicate XXSecond(c: Crypto, x: Chain, psk: Bytes, e: Bytes, ee: Bytes, s: Bytes, es: Bytes, payload: Bytes,
                           message: Bytes, y: Chain)
  {
    var a := After(c, x, [Hash(e), Key(e), Key(ee)]);
    var sealed := Box(c, a.key, 0, a.hash, s);
    var b := After(c, a, [Hash(sealed), Key(es), Both(psk)]);
    var box := Box(c, b.key, 0, b.hash, payload);
    message == e + sealed + box && y == After(c, b, [Hash(box)])
  }

  /** XX, `s, se`: the static key goes under the key of the second message. */
  ghost predicate XXThird(c: Crypto, x: Chain, s: Bytes, se: Bytes, payload: Bytes, message: Bytes, y: Chain) {
    var sealed := Box(c, x.key, 1, x.hash, s);
    var a := After(c, x, [Hash(sealed), Key(se)]);
    var box := Box(c, a.key, 0, a.hash, payload);
    message == sealed + box && y == After(c, a, [Hash(box)])
  }

  /** KK, `psk, e, es, ss`. */
  ghost predicate KKFirst(c: Crypto, x: Chain, psk: Bytes, e: Bytes, es: Bytes, ss: Bytes, payload: Bytes,
                          message: Bytes, y: Chain)
  {
    var a := After(c, x, [Both(psk), Hash(e), Key(e), Key(es), Key(ss)]);
    var box := Box(c, a.key, 0, a.hash, payload);
    message == e + box && y == After(c, a, [Hash(box)])
  }

  /** KK, `e, ee, se`. */
  ghost predicate KKSecond(c: Crypto, x: Chain, e: Bytes, ee: Bytes, se: Bytes, payload: Bytes, message: Bytes, y: Chain) {
    var a := After(c, x, [Hash(e), Key(e), Key(ee), Key(se)]);
    var box := Box(c, a.key, 0, a.hash, payload);
    message == e + box && y == After(c, a, [Hash(box)])
  }

  // ------------------------------------------------------------------------------- what messages leave

  /** A party after one of its messages that is not the last. */
  ghost predicate Continues(s: Session, w: Session) {
    Same(s.(step := s.step + 1), w) && w.hasKey
  }

  /** The keys that the end of a handshake leaves: two outputs of the chaining key, the initiator sending under the first. */
  ghost predicate Keyed(c: Crypto, y: Chain, initiator: bool, s: Session) {
    && s.ready && s.hash == y.hash
    && s.sendKey == Output(c, y.ck, [], if initiator then 1 else 2)
    && s.receiveKey == Output(c, y.ck, [], if initiator then 2 else 1)
  }

  // ------------------------------------------------------------------------------- token by token

  function ChainOf(s: Session): Chain {
    Chain(s.ck, s.hash, s.key)
  }

  /** What stays while the tokens of one message are worked off. */
  ghost predicate Same(s: Session, s': Session) {
    && s'.psk == s.psk && s'.localStatic == s.localStatic && s'.localPublic == s.localPublic
    && s'.ephemeral == s.ephemeral && s'.pattern == s.pattern && s'.initiator == s.initiator && s'.step == s.step
    && s'.hasPin == s.hasPin && s'.pin == s.pin
  }

  /** These mixes happened, and this many boxes have been sealed since the last key. */
  ghost predicate Moved(c: Crypto, s: Session, s': Session, ms: seq<Mix>, nonce: uint64) {
    ChainOf(s') == After(c, ChainOf(s), ms) && s'.nonce == nonce && s'.hasKey && Same(s, s')
  }

  lemma AfterOne(c: Crypto, x: Chain, ms: seq<Mix>, m: Mix)
    ensures After(c, x, ms + [m]) == Mixed(c, After(c, x, ms), m)
  {
    hide Mixed;
    assert (ms + [m])[..|ms|] == ms;
  }

  lemma AfterSingle(c: Crypto, x: Chain, m: Mix)
    ensures After(c, x, [m]) == Mixed(c, x, m)
  {
    hide Mixed;
    AfterOne(c, x, [], m);
    assert [] + [m] == [m];
  }

  lemma {:induction false} AfterBoth(c: Crypto, x: Chain, ms: seq<Mix>, ns: seq<Mix>)
    ensures After(c, x, ms + ns) == After(c, After(c, x, ms), ns)
    decreases |ns|
  {
    hide Mixed;
    if ns == [] {
      assert ms + ns == ms;
    } else {
      var n := |ns| - 1;
      AfterBoth(c, x, ms, ns[..n]);
      assert ms + ns == (ms + ns[..n]) + [ns[n]];
      AfterOne(c, x, ms + ns[..n], ns[n]);
    }
  }

  /** Moves in a row are one move. */
  lemma MovesJoin(c: Crypto, s: Session, s': Session, s'': Session, ms: seq<Mix>, ns: seq<Mix>, n: uint64, m: uint64)
    requires Moved(c, s, s', ms, n) && Moved(c, s', s'', ns, m)
    ensures Moved(c, s, s'', ms + ns, m)
  {
    hide After;
    AfterBoth(c, ChainOf(s), ms, ns);
  }

  lemma KeyMoves(c: Crypto, s: Session, data: Bytes)
    ensures Moved(c, s, MixKey(c, s, data), [Key(data)], 0)
  {
    hide After;
    AfterSingle(c, ChainOf(s), Key(data));
    Expanded(c, s.ck, data);
  }

  lemma BothMoves(c: Crypto, s: Session, data: Bytes)
    ensures Moved(c, s, MixKeyAndHash(c, s, data), [Both(data)], 0)
  {
    hide After;
    AfterSingle(c, ChainOf(s), Both(data));
    Expanded(c, s.ck, data);
  }

  /** The three outputs are the blocks of RFC 5869. */
  lemma Expanded(c: Crypto, ck: Bytes, input: Bytes)
    ensures var (a, b, d) := Hkdf(c, ck, input);
            a == Output(c, ck, input, 1) && b == Output(c, ck, input, 2) && d == Output(c, ck, input, 3)
  {
    assert [] + [1 as uint8] == [1];
  }

  lemma HashMoves(c: Crypto, s: Session, data: Bytes)
    requires s.hasKey
    ensures Moved(c, s, MixHash(c, s, data), [Hash(data)], s.nonce)
  {
    hide After;
    AfterSingle(c, ChainOf(s), Hash(data));
  }

  lemma EphemeralMoves(c: Crypto, s: Session, e: Bytes)
    ensures Moved(c, s, MixKey(c, MixHash(c, s, e), e), [Hash(e), Key(e)], 0)
  {
    hide After;
    var x := ChainOf(s);
    AfterSingle(c, x, Hash(e));
    AfterOne(c, x, [Hash(e)], Key(e));
    assert [Hash(e)] + [Key(e)] == [Hash(e), Key(e)];
    Expanded(c, s.ck, e);
  }

  lemma FirstNonces()
    ensures NonceBytes(0) == [0, 0, 0, 0, 0, 0, 0, 0, 0, 0, 0, 0] && NonceBytes(1) == [0, 0, 0, 0, 0, 0, 0, 0, 0, 0, 0, 1]
  {
  }

  lemma Encrypts(c: Crypto, s: Session, data: Bytes)
    requires s.hasKey && s.nonce <= 1
    ensures var p := EncryptAndHash(c, s, data);
            p.Done? && p.out == Box(c, s.key, s.nonce as uint8, s.hash, data) && Moved(c, s, p.s, [Hash(p.out)], s.nonce + 1)
  {
    hide After;
    FirstNonces();
    HashMoves(c, s.(nonce := s.nonce + 1), EncryptAndHash(c, s, data).out);
  }

  /** What opens was sealed as a box, and the box is hashed. */
  lemma Opens(c: Crypto, s: Session, data: Bytes)
    requires Authentic(c) && s.hasKey && s.nonce <= 1
    ensures var p := DecryptAndHash(c, s, data);
            && (p.Stop? ==> p.rc == ERR_AUTH)
            && (p.Done? ==> p.s == MixHash(c, s.(nonce := s.nonce + 1), data) && data == Box(c, s.key, s.nonce as uint8, s.hash, p.out))
  {
    hide NonceBytes, MixHash;
    FirstNonces();
  }

  lemma Hashed(c: Crypto, s: Session, data: Bytes)
    requires s.hasKey && s.nonce <= 1
    ensures var s' := MixHash(c, s.(nonce := s.nonce + 1), data); Moved(c, s, s', [Hash(data)], s.nonce + 1) && SymmetricOnly(s, s')
  {
    hide After;
    AfterSingle(c, ChainOf(s), Hash(data));
  }

  lemma Decrypts(c: Crypto, s: Session, data: Bytes)
    requires Authentic(c) && s.hasKey && s.nonce <= 1
    ensures var p := DecryptAndHash(c, s, data);
            && (p.Stop? ==> p.rc == ERR_AUTH)
            && (p.Done? ==> data == Box(c, s.key, s.nonce as uint8, s.hash, p.out)
                            && Moved(c, s, p.s, [Hash(data)], s.nonce + 1) && SymmetricOnly(s, p.s))
  {
    hide *;
    Opens(c, s, data);
    Hashed(c, s, data);
  }
}
