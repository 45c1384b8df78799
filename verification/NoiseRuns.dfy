/** From set-up to the end of a handshake and the frames behind it: everything mixed, sealed and opened. */
module NoiseRuns {
  import opened Status
  import opened Words
  import opened Octets
  import opened NoiseSession
  import opened NoiseLifecycle
  import opened NoiseTranscript
  import opened NoiseWritten
  import opened NoiseHeard

  // ------------------------------------------------------------------------------- whole handshakes

  ghost predicate Named(name: string, b: Bytes) {
    |b| == |name| && forall i :: 0 <= i < |name| ==> b[i] as int == name[i] as int
  }

  /** Set-up: the protocol's name is the first chaining key and hash; prologue and, in KK, both static keys follow. */
  lemma Starts(c: Crypto, pattern: int, initiator: bool, psk: Bytes, prologue: Bytes,
               staticKey: Bytes, ephemeralKey: Bytes, pin: Option<Bytes>)
    ensures var (s, rc) := Init(c, pattern, initiator, psk, prologue, staticKey, ephemeralKey, pin);
            var mine := Public(c, staticKey);
            && rc == (if (pattern == 1 || (pattern == 2 && pin.Some?)) && mine.Some? then OK else ERR_INVALID)
            && (rc == OK ==>
                  && Named(if pattern == 1 then "Noise_XXpsk2_25519_AESGCM_SHA256" else "Noise_KKpsk0_25519_AESGCM_SHA256", s.ck)
                  && s.pattern == pattern && s.initiator == initiator && s.psk == psk && s.localStatic == staticKey
                  && s.localPublic == mine.value && s.ephemeral == ephemeralKey && s.step == 0
                  && s.hasPin == pin.Some? && (pin.Some? ==> s.pin == pin.value) && (pattern == 2 ==> s.remoteStatic == pin.value)
                  && var h := c.hash(s.ck + prologue);
                     if pattern == 1 then s.hash == h
                     else
                       var first, second := if initiator then mine.value else pin.value, if initiator then pin.value else mine.value;
                       s.hash == c.hash(c.hash(h + first) + second))
  {
    NamesSpell();
  }

  lemma NamesSpell()
    ensures Named("Noise_XXpsk2_25519_AESGCM_SHA256", ProtocolName(1))
    ensures Named("Noise_KKpsk0_25519_AESGCM_SHA256", ProtocolName(2))
  {
    hide Ascii, Named;
    AsciiSpells("Noise_XXpsk2_25519_AESGCM_SHA256");
    AsciiSpells("Noise_KKpsk0_25519_AESGCM_SHA256");
  }

  lemma AsciiSpells(s: string)
    requires forall i :: 0 <= i < |s| ==> s[i] <= 'z'
    ensures Named(s, Ascii(s))
  {
  }

  /** Everything an XX initiator mixes from start to end, whatever it is sent, if all three calls succeed. */
  lemma XXInitiatorRun(c: Crypto, s: Session, p0: Bytes, m0: nat, message: Bytes, n: nat, p2: Bytes, m2: nat)
    requires Authentic(c) && s.pattern == XX && s.step == 0
    ensures var (s1, a0) := Write(c, s, p0, m0); var (s2, b) := Read(c, s1, message, n); var (s3, a2) := Write(c, s2, p2, m2);
            a0.rc == OK && b.rc == OK && a2.rc == OK ==>
              && |message| >= 32
              && var e, theirs, rs := Public(c, s.ephemeral), message[..32], s3.remoteStatic;
                 var ee, es, se := c.dh(s.ephemeral, theirs), c.dh(s.ephemeral, rs), c.dh(s.localStatic, theirs);
                 && e.Some? && ee.Some? && es.Some? && se.Some? && (s.hasPin ==> rs == s.pin)
                 && exists x1, x2, y ::
                      && XXFirst(c, ChainOf(s), e.value, p0, a0.bytes, x1)
                      && XXSecond(c, x1, s.psk, theirs, ee.value, rs, es.value, b.bytes, message, x2)
                      && XXThird(c, x2, s.localPublic, se.value, p2, a2.bytes, y) && Keyed(c, y, true, s3)
  {
    hide Authentic, Write, Read, XXFirst, XXSecond, XXThird, Keyed, Public;
    var (s1, a0) := Write(c, s, p0, m0);
    WriteXXFirst(c, s, p0, m0);
    if a0.rc == OK {
      var (s2, b) := Read(c, s1, message, n);
      ReadXXSecond(c, s1, message, n);
      if b.rc == OK {
        var (s3, a2) := Write(c, s2, p2, m2);
        WriteXXThird(c, s2, p2, m2);
        if a2.rc == OK {
          var y :| XXThird(c, ChainOf(s2), s.localPublic, c.dh(s.localStatic, message[..32]).value, p2, a2.bytes, y) && Keyed(c, y, true, s3);
        }
      }
    }
  }

  lemma XXResponderRun(c: Crypto, s: Session, first: Bytes, n0: nat, p: Bytes, m: nat, third: Bytes, n2: nat)
    requires Authentic(c) && s.pattern == XX && s.step == 0
    ensures var (s1, b0) := Read(c, s, first, n0); var (s2, a) := Write(c, s1, p, m); var (s3, b2) := Read(c, s2, third, n2);
            b0.rc == OK && a.rc == OK && b2.rc == OK ==>
              && |first| >= 32
              && var e, theirs, rs := Public(c, s.ephemeral), first[..32], s3.remoteStatic;
                 var ee, es, se := c.dh(s.ephemeral, theirs), c.dh(s.localStatic, theirs), c.dh(s.ephemeral, rs);
                 && e.Some? && ee.Some? && es.Some? && se.Some? && (s.hasPin ==> rs == s.pin)
                 && exists x1, x2, y ::
                      && XXFirst(c, ChainOf(s), theirs, b0.bytes, first, x1)
                      && XXSecond(c, x1, s.psk, e.value, ee.value, s.localPublic, es.value, p, a.bytes, x2)
                      && XXThird(c, x2, rs, se.value, b2.bytes, third, y) && Keyed(c, y, false, s3)
  {
    hide Authentic, Write, Read, XXFirst, XXSecond, XXThird, Keyed, Public;
    var (s1, b0) := Read(c, s, first, n0);
    ReadXXFirst(c, s, first, n0);
    if b0.rc == OK {
      var (s2, a) := Write(c, s1, p, m);
      WriteXXSecond(c, s1, p, m);
      if a.rc == OK {
        var (s3, b2) := Read(c, s2, third, n2);
        ReadXXThird(c, s2, third, n2);
        if b2.rc == OK {
          var rs := s3.remoteStatic;
          var y :| XXThird(c, ChainOf(s2), rs, c.dh(s.ephemeral, rs).value, b2.bytes, third, y) && Keyed(c, y, false, s3);
        }
      }
    }
  }

  /** The same for KK. */
  lemma KKInitiatorRun(c: Crypto, s: Session, p: Bytes, m: nat, message: Bytes, n: nat)
    requires Authentic(c) && s.pattern == KK && s.step == 0
    ensures var (s1, a) := Write(c, s, p, m); var (s2, b) := Read(c, s1, message, n);
            a.rc == OK && b.rc == OK ==>
              && |message| >= 32
              && var e, theirs := Public(c, s.ephemeral), message[..32];
                 var es, ss := c.dh(s.ephemeral, s.remoteStatic), c.dh(s.localStatic, s.remoteStatic);
                 var ee, se := c.dh(s.ephemeral, theirs), c.dh(s.localStatic, theirs);
                 && e.Some? && es.Some? && ss.Some? && ee.Some? && se.Some?
                 && exists x, y ::
                      && KKFirst(c, ChainOf(s), s.psk, e.value, es.value, ss.value, p, a.bytes, x)
                      && KKSecond(c, x, theirs, ee.value, se.value, b.bytes, message, y) && Keyed(c, y, true, s2)
  {
    hide Authentic, Write, Read, KKFirst, KKSecond, Keyed, Public;
    var (s1, a) := Write(c, s, p, m);
    WriteKKFirst(c, s, p, m);
    if a.rc == OK {
      var (s2, b) := Read(c, s1, message, n);
      ReadKKSecond(c, s1, message, n);
      if b.rc == OK {
        var e := message[..32];
        var y :| KKSecond(c, ChainOf(s1), e, c.dh(s.ephemeral, e).value, c.dh(s.localStatic, e).value, b.bytes, message, y)
                 && Keyed(c, y, true, s2);
      }
    }
  }

  lemma KKResponderRun(c: Crypto, s: Session, message: Bytes, n: nat, p: Bytes, m: nat)
    requires Authentic(c) && s.pattern == KK && s.step == 0
    ensures var (s1, b) := Read(c, s, message, n); var (s2, a) := Write(c, s1, p, m);
            b.rc == OK && a.rc == OK ==>
              && |message| >= 32
              && var e, theirs := Public(c, s.ephemeral), message[..32];
                 var es, ss := c.dh(s.localStatic, theirs), c.dh(s.localStatic, s.remoteStatic);
                 var ee, se := c.dh(s.ephemeral, theirs), c.dh(s.ephemeral, s.remoteStatic);
                 && e.Some? && es.Some? && ss.Some? && ee.Some? && se.Some?
                 && exists x, y ::
                      && KKFirst(c, ChainOf(s), s.psk, theirs, es.value, ss.value, b.bytes, message, x)
                      && KKSecond(c, x, e.value, ee.value, se.value, p, a.bytes, y) && Keyed(c, y, false, s2)
  {
    hide Authentic, Write, Read, KKFirst, KKSecond, Keyed, Public;
    var (s1, b) := Read(c, s, message, n);
    ReadKKFirst(c, s, message, n);
    if b.rc == OK {
      var (s2, a) := Write(c, s1, p, m);
      WriteKKSecond(c, s1, p, m);
      if a.rc == OK {
        var e, theirs := Public(c, s.ephemeral).value, message[..32];
        var y :| KKSecond(c, ChainOf(s1), e, c.dh(s.ephemeral, theirs).value, c.dh(s.ephemeral, s.remoteStatic).value, p, a.bytes, y)
                 && Keyed(c, y, false, s2);
      }
    }
  }

  /** How often the message key has been used: never before the first message, once between messages. */
  predicate OnceUsed(s: Session) {
    s.failed || s.ready || s.nonce == if s.step == 0 then 0 else 1
  }

  lemma WriteUsesOnce(c: Crypto, s: Session, payload: Bytes, capacity: nat)
    requires Lawful(c) && Live(s) && OnceUsed(s)
    ensures OnceUsed(Write(c, s, payload, capacity).0)
  {
    hide Lawful, WriteBody, XXFirst, XXSecond, KKFirst;
    WriteKeeps(c, s, payload, capacity);
    ApplyKeepsRole(c, s, WriteOp(payload, capacity));
    if Write(c, s, payload, capacity).1.rc == OK && s.step + 1 != Steps(s.pattern) {
      if s.pattern == KK {
        WriteKKFirst(c, s, payload, capacity);
      } else if s.step == 0 {
        WriteXXFirst(c, s, payload, capacity);
      } else {
        WriteXXSecond(c, s, payload, capacity);
      }
    }
  }

  lemma ReadUsesOnce(c: Crypto, s: Session, message: Bytes, capacity: nat)
    requires Lawful(c) && Authentic(c) && Live(s) && OnceUsed(s)
    ensures OnceUsed(Read(c, s, message, capacity).0)
  {
    hide Lawful, Authentic, ReadBody, XXFirst, XXSecond, KKFirst;
    ReadKeeps(c, s, message, capacity);
    ApplyKeepsRole(c, s, ReadOp(message, capacity));
    if Read(c, s, message, capacity).1.rc == OK && s.step + 1 != Steps(s.pattern) {
      if s.pattern == KK {
        ReadKKFirst(c, s, message, capacity);
      } else if s.step == 0 {
        ReadXXFirst(c, s, message, capacity);
      } else {
        ReadXXSecond(c, s, message, capacity);
      }
    }
  }

  /** Over every run: no key of the handshake seals two texts under one nonce. */
  lemma {:induction false} RunUsesOnce(c: Crypto, s: Session, ops: seq<Op>)
    requires Lawful(c) && Authentic(c) && Sound(s) && OnceUsed(s)
    ensures OnceUsed(Run(c, s, ops))
    decreases |ops|
  {
    hide Lawful, Authentic, OnceUsed;
    if ops != [] {
      ApplyKeeps(c, s, ops[0]);
      ApplyUsesOnce(c, s, ops[0]);
      RunUsesOnce(c, Apply(c, s, ops[0]).0, ops[1..]);
    }
  }

  lemma ApplyUsesOnce(c: Crypto, s: Session, op: Op)
    requires Lawful(c) && Authentic(c) && Sound(s) && OnceUsed(s)
    ensures OnceUsed(Apply(c, s, op).0)
  {
    hide Lawful, Authentic, WriteBody, ReadBody, Live;
    match op
    case WriteOp(p, n) => if s != FAILED { WriteUsesOnce(c, s, p, n); }
    case ReadOp(m, n) => if s != FAILED { ReadUsesOnce(c, s, m, n); }
    case EncryptOp(_, _) =>
    case DecryptOp(_, _) =>
  }

  // ------------------------------------------------------------------------------- frames after it

  /** A nonce: four zero bytes, and a number in eight bytes, highest first. */
  ghost predicate IsNonce(b: Bytes, n: nat) {
    |b| == 12 && b[..4] == [0, 0, 0, 0] && BigValue(b[4..]) == n
  }

  lemma NonceIs(n: uint64)
    ensures IsNonce(NonceBytes(n), n as nat)
  {
    hide BigEndian, BigValue;
    BigEndianSpells(n as nat, 8);
    EightBytes();
    assert NonceBytes(n)[4..] == BigEndian(n as nat, 8);
  }

  /** Markers 0 to 3 begin a message and need none open; 4 and 5 go on with one. */
  predicate MarkerFits(open: bool, frame: Bytes) {
    frame != [] && if open then frame[0] == 4 || frame[0] == 5 else frame[0] < 4
  }

  /** Sending a frame: the code, the box, and what the party is left with. */
  lemma EncryptIs(c: Crypto, s: Session, frame: Bytes, capacity: nat) returns (nonce: Bytes)
    ensures IsNonce(nonce, s.sendNonce as nat)
    ensures var (s', r) := Encrypt(c, s, frame, capacity);
            && r.rc == (if s.failed || !s.ready || |frame| > 65001 then ERR_INVALID
                        else if capacity < |frame| + 16 then ERR_NOMEM
                        else if !MarkerFits(s.sendChunked, frame) then ERR_INVALID
                        else if s.sendNonce as nat == 0xffff_ffff_ffff_ffff then ERR_AUTH
                        else OK)
            && (if r.rc == OK then
                  && r.bytes == c.aeadSeal(s.sendKey, nonce, [], frame)
                  && s' == s.(sendNonce := s.sendNonce + 1, sendChunked := 2 <= frame[0] <= 4)
                else s' == FAILED && r.bytes == [])
  {
    hide NonceBytes;
    nonce := NonceBytes(s.sendNonce);
    NonceIs(s.sendNonce);
  }

  /** Receiving one. A frame that opens out of place is refused like one that does not open. */
  lemma DecryptIs(c: Crypto, s: Session, box: Bytes, capacity: nat) returns (nonce: Bytes)
    ensures IsNonce(nonce, s.receiveNonce as nat)
    ensures var (s', r) := Decrypt(c, s, box, capacity); var plain := c.aeadOpen(s.receiveKey, nonce, [], box);
            && r.rc == (if s.failed || !s.ready || |box| < 17 || |box| > 65535 then ERR_INVALID
                        else if capacity < |box| - 16 then ERR_NOMEM
                        else if s.receiveNonce as nat == 0xffff_ffff_ffff_ffff || plain.None? then ERR_AUTH
                        else if !MarkerFits(s.receiveChunked, plain.value) then ERR_INVALID
                        else OK)
            && (if r.rc == OK then
                  && r.bytes == plain.value
                  && s' == s.(receiveNonce := s.receiveNonce + 1, receiveChunked := 2 <= plain.value[0] <= 4)
                else s' == FAILED && r.bytes == [])
  {
    hide NonceBytes;
    nonce := NonceBytes(s.receiveNonce);
    NonceIs(s.receiveNonce);
  }
}
