/** Two honest parties: every handshake message delivers its payload, and both ends stay in step. */
module NoiseHandshake {
  import opened Status
  import opened NoiseSession
  import opened NoiseLifecycle

  /** Which public keys the writer and the reader of a message hold of each other. */
  datatype Known = Known(writerHasStatic: bool, writerHasEphemeral: bool, readerHasStatic: bool, readerHasEphemeral: bool)

  function Turned(k: Known): Known {
    Known(k.readerHasStatic, k.readerHasEphemeral, k.writerHasStatic, k.writerHasEphemeral)
  }

  function Learn(k: Known, t: Token): Known {
    match t
    case E => k.(readerHasEphemeral := true)
    case S => k.(readerHasStatic := true)
    case _ => k
  }

  function LearnAll(k: Known, ts: seq<Token>): Known
    decreases |ts|
  {
    if ts == [] then k else LearnAll(Learn(k, ts[0]), ts[1..])
  }

  /** Both parties hold the public keys a token combines. */
  predicate CanMix(k: Known, t: Token, writerInitiates: bool) {
    match t
    case EE => k.writerHasEphemeral && k.readerHasEphemeral
    case SS => k.writerHasStatic && k.readerHasStatic
    case ES => if writerInitiates then k.writerHasStatic && k.readerHasEphemeral
               else k.writerHasEphemeral && k.readerHasStatic
    case SE => if writerInitiates then k.writerHasEphemeral && k.readerHasStatic
               else k.writerHasStatic && k.readerHasEphemeral
    case _ => true
  }

  predicate CanMixAll(k: Known, ts: seq<Token>, writerInitiates: bool)
    decreases |ts|
  {
    ts == [] || (CanMix(k, ts[0], writerInitiates) && CanMixAll(Learn(k, ts[0]), ts[1..], writerInitiates))
  }

  /** The shared state is shared. */
  ghost predicate InStep(w: Session, r: Session) {
    && w.ck == r.ck && w.hash == r.hash && w.key == r.key && w.nonce == r.nonce && w.hasKey == r.hasKey
    && w.psk == r.psk && w.pattern == r.pattern && w.step == r.step && w.initiator != r.initiator
  }

  /** A party's own keys have public halves. */
  ghost predicate Keyed(c: Crypto, s: Session) {
    Public(c, s.localStatic) == Some(s.localPublic) && Public(c, s.ephemeral).Some?
  }

  /** What one party holds of the other is the other's. */
  ghost predicate Holds(c: Crypto, s: Session, peer: Session, hasStatic: bool, hasEphemeral: bool) {
    && (hasStatic ==> s.remoteStatic == peer.localPublic)
    && (hasEphemeral ==> Some(s.remoteEphemeral) == Public(c, peer.ephemeral))
    && (s.hasPin ==> s.pin == peer.localPublic)
  }

  ghost predicate Agree(c: Crypto, w: Session, r: Session, k: Known) {
    && InStep(w, r) && Keyed(c, w) && Keyed(c, r)
    && Holds(c, w, r, k.writerHasStatic, k.writerHasEphemeral)
    && Holds(c, r, w, k.readerHasStatic, k.readerHasEphemeral)
  }

  /** None of the exchanges the pattern makes between the two parties gives the all-zero result: XX has no SS. */
  ghost predicate Contributory(c: Crypto, w: Session, r: Session) {
    && Public(c, r.ephemeral).Some?
    && c.dh(w.ephemeral, Public(c, r.ephemeral).value).Some? && c.dh(w.ephemeral, r.localPublic).Some?
    && c.dh(w.localStatic, Public(c, r.ephemeral).value).Some?
    && (w.pattern == KK ==> c.dh(w.localStatic, r.localPublic).Some?)
  }

  /** A token that belongs to the pattern. */
  predicate OfPattern(t: Token, pattern: int) {
    t == SS ==> pattern == KK
  }

  // -------------------------------------------------------------------------------------- one token

  /** Both parties reach the same shared secret: the one place where commuting matters. */
  lemma SameSecret(c: Crypto, w: Session, r: Session, k: Known, t: Token)
    requires Lawful(c) && Agree(c, w, r, k) && Contributory(c, w, r)
    requires t in {EE, ES, SE, SS} && CanMix(k, t, w.initiator) && OfPattern(t, w.pattern)
    ensures var (a, b) := DhPair(w, t); var (a', b') := DhPair(r, t);
            c.dh(a, b).Some? && c.dh(a, b) == c.dh(a', b')
  {
  }

  lemma EncryptDecrypt(c: Crypto, w: Session, r: Session, data: Bytes)
    requires Lawful(c) && InStep(w, r) && w.nonce < NONCE_LIMIT
    ensures var p := EncryptAndHash(c, w, data);
            && p.Done? && |p.out| == |data| + TagLength(w) && p.s.nonce as int <= w.nonce as int + 1
            && var q := DecryptAndHash(c, r, p.out);
               q.Done? && q.out == data && InStep(p.s, q.s) && SymmetricOnly(w, p.s) && SymmetricOnly(r, q.s)
  {
    hide InStep, MixHash;
    var p := EncryptAndHash(c, w, data);
    SameKeys(w, r);
    MixHashAgrees(c, w, r, p.out);
    MixHashAgrees(c, w.(nonce := w.nonce + 1), r.(nonce := w.nonce + 1), p.out);
  }

  lemma SameKeys(w: Session, r: Session)
    requires InStep(w, r)
    ensures w.key == r.key && w.nonce == r.nonce && w.hash == r.hash && w.hasKey == r.hasKey
    ensures w.nonce < NONCE_LIMIT ==> InStep(w.(nonce := w.nonce + 1), r.(nonce := w.nonce + 1))
  {
  }

  lemma MixHashAgrees(c: Crypto, w: Session, r: Session, data: Bytes)
    requires InStep(w, r)
    ensures var w', r' := MixHash(c, w, data), MixHash(c, r, data);
            InStep(w', r') && SymmetricOnly(w, w') && SymmetricOnly(r, r') && w'.nonce == w.nonce
  {
  }

  ghost predicate TokenAgrees(c: Crypto, w: Session, r: Session, k: Known, t: Token, rest: Bytes) {
    var p := WriteToken(c, w, t);
    && p.Done? && p.s.nonce as int <= w.nonce as int + 1
    && var q := ReadToken(c, r, t, p.out + rest);
       && q.Done? && q.out == rest
       && Agree(c, p.s, q.s, Learn(k, t)) && Contributory(c, p.s, q.s)
  }

  lemma StaticAgrees(c: Crypto, w: Session, r: Session, k: Known, rest: Bytes)
    requires Lawful(c) && Agree(c, w, r, k) && Contributory(c, w, r) && w.nonce < NONCE_LIMIT
    ensures TokenAgrees(c, w, r, k, S, rest)
  {
    hide EncryptAndHash, DecryptAndHash, ReadToken, Agree, Contributory, SymmetricOnly, InStep;
    StaticFits(c, w, r, k);
    EncryptDecrypt(c, w, r, w.localPublic);
    var p := EncryptAndHash(c, w, w.localPublic);
    StaticRead(c, r, p.out, rest);
    StaticKnown(c, w, r, p.s, DecryptAndHash(c, r, p.out).s, k);
  }

  lemma StaticFits(c: Crypto, w: Session, r: Session, k: Known)
    requires Lawful(c) && Agree(c, w, r, k)
    ensures InStep(w, r) && |w.localPublic| == 32 && TagLength(w) == TagLength(r) && (r.hasPin ==> r.pin == w.localPublic)
  {
  }

  /** Once it is read, the reader holds the writer's static key; nothing else about the two has changed. */
  lemma StaticKnown(c: Crypto, w: Session, r: Session, w': Session, r': Session, k: Known)
    requires Agree(c, w, r, k) && Contributory(c, w, r)
    requires InStep(w', r') && SymmetricOnly(w, w') && SymmetricOnly(r, r')
    ensures Agree(c, w', r'.(remoteStatic := w.localPublic), Learn(k, S))
    ensures Contributory(c, w', r'.(remoteStatic := w.localPublic))
    ensures r'.hasPin == r.hasPin && r'.pin == r.pin
  {
  }

  lemma StaticRead(c: Crypto, r: Session, box: Bytes, rest: Bytes)
    requires |box| == 32 + TagLength(r)
    ensures ReadToken(c, r, S, box + rest) == match DecryptAndHash(c, r, box)
              case Stop(rc) => Stop(rc)
              case Done(s', remote) =>
                if r.hasPin && r.pin != remote then Stop(ERR_AUTH) else Done(s'.(remoteStatic := remote), rest)
  {
    hide DecryptAndHash;
    assert (box + rest)[..|box|] == box && (box + rest)[|box|..] == rest;
  }

  lemma EphemeralAgrees(c: Crypto, w: Session, r: Session, k: Known, rest: Bytes)
    requires Lawful(c) && Agree(c, w, r, k) && Contributory(c, w, r)
    ensures TokenAgrees(c, w, r, k, E, rest)
  {
    var e := Public(c, w.ephemeral).value;
    assert |e| == 32;
    assert (e + rest)[..32] == e && (e + rest)[32..] == rest;
  }

  lemma MixAgrees(c: Crypto, w: Session, r: Session, k: Known, t: Token, rest: Bytes)
    requires Lawful(c) && Agree(c, w, r, k) && Contributory(c, w, r)
    requires t in {EE, ES, SE, SS} && CanMix(k, t, w.initiator) && OfPattern(t, w.pattern)
    ensures TokenAgrees(c, w, r, k, t, rest)
  {
    assert [] + rest == rest;
    SameSecret(c, w, r, k, t);
    hide Agree, Contributory, MixKey;
    var (a, b) := DhPair(w, t);
    KeysMix(c, w, r, k, c.dh(a, b).value);
  }

  lemma KeysMix(c: Crypto, w: Session, r: Session, k: Known, data: Bytes)
    requires Agree(c, w, r, k) && Contributory(c, w, r)
    ensures Agree(c, MixKey(c, w, data), MixKey(c, r, data), k)
    ensures Contributory(c, MixKey(c, w, data), MixKey(c, r, data)) && MixKey(c, w, data).nonce <= w.nonce
  {
  }

  lemma PskAgrees(c: Crypto, w: Session, r: Session, k: Known, rest: Bytes)
    requires Agree(c, w, r, k) && Contributory(c, w, r)
    ensures TokenAgrees(c, w, r, k, PSK, rest)
  {
    hide Agree, Contributory, MixKeyAndHash;
    assert [] + rest == rest;
    SamePsk(c, w, r, k);
    PskMixes(c, w, r, k, w.psk);
  }

  lemma SamePsk(c: Crypto, w: Session, r: Session, k: Known)
    requires Agree(c, w, r, k)
    ensures w.psk == r.psk
  {
  }

  lemma PskMixes(c: Crypto, w: Session, r: Session, k: Known, data: Bytes)
    requires Agree(c, w, r, k) && Contributory(c, w, r)
    ensures Agree(c, MixKeyAndHash(c, w, data), MixKeyAndHash(c, r, data), k)
    ensures Contributory(c, MixKeyAndHash(c, w, data), MixKeyAndHash(c, r, data))
    ensures MixKeyAndHash(c, w, data).nonce <= w.nonce
  {
  }

  lemma TokenStep(c: Crypto, w: Session, r: Session, k: Known, t: Token, rest: Bytes)
    requires Lawful(c) && Agree(c, w, r, k) && Contributory(c, w, r) && w.nonce < NONCE_LIMIT
    requires CanMix(k, t, w.initiator) && OfPattern(t, w.pattern)
    ensures TokenAgrees(c, w, r, k, t, rest)
  {
    match t
    case S => StaticAgrees(c, w, r, k, rest);
    case E => EphemeralAgrees(c, w, r, k, rest);
    case PSK => PskAgrees(c, w, r, k, rest);
    case _ => MixAgrees(c, w, r, k, t, rest);
  }

  // -------------------------------------------------------------------------------------- one message

  lemma {:induction false} WriteTokensPrefix(c: Crypto, s: Session, ts: seq<Token>, out: Bytes)
    ensures var p, q := WriteTokens(c, s, ts, out), WriteTokens(c, s, ts, []);
            (p.Done? <==> q.Done?) && (p.Done? ==> p.s == q.s && p.out == out + q.out)
    decreases |ts|
  {
    hide WriteToken;
    if ts == [] {
      assert out + [] == out;
    } else {
      var p := WriteToken(c, s, ts[0]);
      if p.Done? {
        WriteTokensPrefix(c, p.s, ts[1..], out + p.out);
        WriteTokensPrefix(c, p.s, ts[1..], [] + p.out);
        var q := WriteTokens(c, p.s, ts[1..], []);
        if q.Done? {
          assert out + p.out + q.out == out + ([] + p.out + q.out);
        }
      }
    }
  }

  ghost predicate TokensAgreeOn(c: Crypto, w: Session, r: Session, k: Known, ts: seq<Token>, rest: Bytes) {
    var p := WriteTokens(c, w, ts, []);
    && p.Done? && p.s.nonce as int <= w.nonce as int + |ts|
    && var q := ReadTokens(c, r, ts, p.out + rest);
       && q.Done? && q.out == rest
       && Agree(c, p.s, q.s, LearnAll(k, ts)) && Contributory(c, p.s, q.s)
  }

  lemma {:induction false} TokensAgree(c: Crypto, w: Session, r: Session, k: Known, ts: seq<Token>, rest: Bytes)
    requires Lawful(c) && Agree(c, w, r, k) && Contributory(c, w, r)
    requires w.nonce as int + |ts| < NONCE_LIMIT as int && CanMixAll(k, ts, w.initiator)
    requires forall i :: 0 <= i < |ts| ==> OfPattern(ts[i], w.pattern)
    ensures TokensAgreeOn(c, w, r, k, ts, rest)
    decreases |ts|
  {
    hide WriteToken, ReadToken, Contributory, TokenAgrees;
    if ts == [] {
      assert [] + rest == rest;
    } else {
      var p := WriteToken(c, w, ts[0]);
      TokenStep(c, w, r, k, ts[0], []);
      WriteTokenShape(c, w, ts[0]);
      var p' := WriteTokens(c, p.s, ts[1..], []);
      var tail := if p'.Done? then p'.out else [];
      TokenStep(c, w, r, k, ts[0], tail + rest);
      var q := ReadToken(c, r, ts[0], p.out + (tail + rest));
      TokensAgree(c, p.s, q.s, Learn(k, ts[0]), ts[1..], rest);
      Joined(c, w, r, k, ts, rest);
    }
  }

  /** A first token and the tokens after it make one sequence. */
  lemma Joined(c: Crypto, w: Session, r: Session, k: Known, ts: seq<Token>, rest: Bytes)
    requires ts != [] && WriteToken(c, w, ts[0]).Done?
    requires var p := WriteToken(c, w, ts[0]); var p' := WriteTokens(c, p.s, ts[1..], []);
             && p.s.nonce as int <= w.nonce as int + 1 && p'.Done?
             && var q := ReadToken(c, r, ts[0], p.out + (p'.out + rest));
                q.Done? && q.out == p'.out + rest && TokensAgreeOn(c, p.s, q.s, Learn(k, ts[0]), ts[1..], rest)
    ensures TokensAgreeOn(c, w, r, k, ts, rest)
  {
    hide WriteToken, ReadToken, WriteTokens, ReadTokens, LearnAll, Learn, Agree, Contributory;
    var p := WriteToken(c, w, ts[0]);
    var p' := WriteTokens(c, p.s, ts[1..], []);
    WriteTokensPrefix(c, p.s, ts[1..], [] + p.out);
    assert [] + p.out == p.out;
    assert p.out + (p'.out + rest) == (p.out + p'.out) + rest;
    WriteCons(c, w, ts);
    ReadCons(c, r, ts, p.out + p'.out + rest);
    LearnCons(k, ts);
  }

  lemma WriteCons(c: Crypto, s: Session, ts: seq<Token>)
    requires ts != [] && WriteToken(c, s, ts[0]).Done?
    ensures var p := WriteToken(c, s, ts[0]); WriteTokens(c, s, ts, []) == WriteTokens(c, p.s, ts[1..], [] + p.out)
  {
    hide WriteToken;
  }

  lemma ReadCons(c: Crypto, s: Session, ts: seq<Token>, message: Bytes)
    requires ts != [] && ReadToken(c, s, ts[0], message).Done?
    ensures var q := ReadToken(c, s, ts[0], message); ReadTokens(c, s, ts, message) == ReadTokens(c, q.s, ts[1..], q.out)
  {
    hide ReadToken;
  }

  lemma LearnCons(k: Known, ts: seq<Token>)
    requires ts != []
    ensures LearnAll(k, ts) == LearnAll(Learn(k, ts[0]), ts[1..])
  {
    hide Learn;
  }

  ghost predicate BodiesAgree(c: Crypto, w: Session, r: Session, k: Known, payload: Bytes, capacity: nat) {
    var p := WriteBody(c, w, payload);
    && p.Done?
    && var q := ReadBody(c, r, p.out, capacity);
       && q.Done? && q.out == payload
       && Agree(c, p.s, q.s, k) && Contributory(c, p.s, q.s) && p.s.nonce as int <= w.nonce as int + 10
  }

  /** Tokens and payload make one message. */
  lemma BodyAgrees(c: Crypto, w: Session, r: Session, k: Known, payload: Bytes, capacity: nat)
    requires Lawful(c) && Agree(c, w, r, k) && Contributory(c, w, r) && w.nonce < 100
    requires w.pattern == XX || w.pattern == KK
    requires CanMixAll(k, Tokens(w.pattern, w.step), w.initiator) && capacity >= |payload|
    ensures BodiesAgree(c, w, r, LearnAll(k, Tokens(w.pattern, w.step)), payload, capacity)
  {
    hide CanMixAll, LearnAll, WriteTokens, ReadTokens, EncryptAndHash, DecryptAndHash, Agree, Contributory, Tokens;
    var ts := Tokens(w.pattern, w.step);
    TableFits(c, w, r, k);
    TokensAgree(c, w, r, k, ts, []);
    var s := WriteTokens(c, w, ts, []).s;
    var head := WriteTokens(c, w, ts, []).out;
    SealFits(c, s, payload);
    var e := EncryptAndHash(c, s, payload);
    TokensAgree(c, w, r, k, ts, e.out);
    var s' := ReadTokens(c, r, ts, head + e.out).s;
    PayloadAgrees(c, s, s', LearnAll(k, ts), payload);
    AgreeTag(c, s, s', LearnAll(k, ts));
    BodyReads(c, r, head, e.out, capacity);
  }

  lemma TableFits(c: Crypto, w: Session, r: Session, k: Known)
    requires w.pattern == XX || w.pattern == KK
    requires Agree(c, w, r, k)
    ensures var ts := Tokens(w.pattern, w.step); |ts| <= 5 && forall i :: 0 <= i < |ts| ==> OfPattern(ts[i], w.pattern)
    ensures Tokens(w.pattern, w.step) == Tokens(r.pattern, r.step)
  {
  }

  lemma SealFits(c: Crypto, s: Session, payload: Bytes)
    requires Lawful(c) && s.nonce < NONCE_LIMIT
    ensures EncryptAndHash(c, s, payload).Done?
  {
  }

  lemma AgreeTag(c: Crypto, w: Session, r: Session, k: Known)
    requires Agree(c, w, r, k)
    ensures TagLength(w) == TagLength(r)
  {
  }

  lemma BodyReads(c: Crypto, r: Session, head: Bytes, tail: Bytes, capacity: nat)
    requires var q := ReadTokens(c, r, Tokens(r.pattern, r.step), head + tail);
             q.Done? && q.out == tail && |tail| >= TagLength(q.s) && capacity >= |tail| - TagLength(q.s)
    ensures var q := ReadTokens(c, r, Tokens(r.pattern, r.step), head + tail);
            ReadBody(c, r, head + tail, capacity) == DecryptAndHash(c, q.s, tail)
  {
    hide ReadTokens, DecryptAndHash, Tokens;
  }

  lemma PayloadAgrees(c: Crypto, w: Session, r: Session, k: Known, payload: Bytes)
    requires Lawful(c) && Agree(c, w, r, k) && Contributory(c, w, r) && w.nonce < NONCE_LIMIT
    ensures var p := EncryptAndHash(c, w, payload);
            && p.Done? && |p.out| == |payload| + TagLength(w) && p.s.nonce as int <= w.nonce as int + 1
            && var q := DecryptAndHash(c, r, p.out);
               q.Done? && q.out == payload && Agree(c, p.s, q.s, k) && Contributory(c, p.s, q.s)
  {
    EncryptDecrypt(c, w, r, payload);
  }

  /** The end of a handshake: two ready parties with crossing keys, each holding the other's static key. */
  ghost predicate Linked(a: Session, b: Session) {
    && a.ready && b.ready && !a.failed && !b.failed
    && a.sendKey == b.receiveKey && a.receiveKey == b.sendKey
    && a.hash == b.hash && a.remoteStatic == b.localPublic && b.remoteStatic == a.localPublic
    && a.sendNonce == a.receiveNonce == b.sendNonce == b.receiveNonce == 0
    && !a.sendChunked && !a.receiveChunked && !b.sendChunked && !b.receiveChunked
  }

  lemma ContributoryTurns(c: Crypto, a: Session, b: Session)
    requires Lawful(c) && Keyed(c, a) && Keyed(c, b) && a.pattern == b.pattern && Contributory(c, a, b)
    ensures Contributory(c, b, a)
  {
  }

  lemma AgreeTurns(c: Crypto, a: Session, b: Session, k: Known)
    requires Agree(c, a, b, k)
    ensures Agree(c, b, a, Turned(k))
  {
  }

  lemma AgreeAdvances(c: Crypto, a: Session, b: Session, k: Known, n: int)
    requires Agree(c, a, b, k)
    ensures Agree(c, a.(step := n), b.(step := n), k)
  {
  }

  /** Between messages the roles turn. */
  lemma SplitTurns(c: Crypto, a: Session, b: Session, k: Known)
    requires Lawful(c) && Agree(c, a, b, k) && Contributory(c, a, b) && a.step + 1 != Steps(a.pattern)
    ensures Agree(c, Split(c, b), Split(c, a), Turned(k)) && Contributory(c, Split(c, b), Split(c, a))
  {
    var a', b' := a.(step := a.step + 1), b.(step := a.step + 1);
    assert Split(c, a) == a' && Split(c, b) == b';
    AgreeAdvances(c, a, b, k, a.step + 1);
    AgreeTurns(c, a', b', k);
    assert Contributory(c, a', b');
    ContributoryTurns(c, a', b');
  }

  /** No transport message has been sent or received yet. */
  predicate Idle(s: Session) {
    !s.failed && s.sendNonce == s.receiveNonce == 0 && !s.sendChunked && !s.receiveChunked
  }

  /** After the last message the keys cross. */
  lemma SplitCrosses(c: Crypto, a: Session, b: Session, k: Known)
    requires Agree(c, a, b, k) && a.step + 1 == Steps(a.pattern) && Idle(a) && Idle(b)
    ensures k.writerHasStatic && k.readerHasStatic ==> Linked(Split(c, a), Split(c, b))
  {
  }

  /** Two live parties between messages, `w` about to write. */
  ghost predicate Ready(c: Crypto, w: Session, r: Session, k: Known) {
    && Live(w) && Live(r) && ValidStep(w) && MyTurn(w)
    && Agree(c, w, r, k) && Contributory(c, w, r) && w.nonce as int <= 10 * w.step
  }

  /** Room for the message on both ends. */
  predicate Fits(payload: Bytes, writeCapacity: nat, readCapacity: nat) {
    |payload| <= 65535 - 96 && writeCapacity >= |payload| + 96 && readCapacity >= |payload|
  }

  /** What one message achieves, seen from both ends. */
  ghost predicate Delivered(c: Crypto, w: Session, r: Session, k: Known, payload: Bytes, m: nat, n: nat) {
    var (w', a) := Write(c, w, payload, m);
    var (r', b) := Read(c, r, a.bytes, n);
    && a.rc == OK && b.rc == OK && b.bytes == payload
    && w'.step == r'.step == w.step + 1 && w'.pattern == w.pattern && w'.initiator == w.initiator
    && (w.step + 1 != Steps(w.pattern) ==> Ready(c, r', w', Turned(k)))
    && (w.step + 1 == Steps(w.pattern) && k.writerHasStatic && k.readerHasStatic ==> Linked(w', r'))
  }

  lemma MessageDelivered(c: Crypto, w: Session, r: Session, k: Known, payload: Bytes, m: nat, n: nat)
    requires Lawful(c) && Ready(c, w, r, k) && Fits(payload, m, n)
    requires CanMixAll(k, Tokens(w.pattern, w.step), w.initiator)
    ensures Delivered(c, w, r, LearnAll(k, Tokens(w.pattern, w.step)), payload, m, n)
  {
    hide LearnAll, WriteBody, ReadBody, Split, Write, Read, CanMixAll, Agree, Contributory, Linked, Steps, Tokens;
    var k' := LearnAll(k, Tokens(w.pattern, w.step));
    ReadyMeans(c, w, r, k);
    BodyAgrees(c, w, r, k, payload, n);
    BodiesKeepRole(c, w, r, payload, n);
    WriteFinishes(c, w, payload, m);
    var p := WriteBody(c, w, payload);
    ReadFinishes(c, r, p.out, n);
    var q := ReadBody(c, r, p.out, n);
    AfterSplit(c, w, p.s, q.s, k');
    SplitKeepsRole(c, p.s);
    SplitKeepsRole(c, q.s);
  }

  lemma ReadyMeans(c: Crypto, w: Session, r: Session, k: Known)
    requires Ready(c, w, r, k)
    ensures ValidStep(r) && !MyTurn(r) && r.step == w.step && w.nonce < 100
    ensures Overhead(w.pattern, w.step) <= 96
  {
  }

  lemma WriteFinishes(c: Crypto, w: Session, payload: Bytes, m: nat)
    requires Lawful(c) && Live(w) && ValidStep(w) && MyTurn(w) && |payload| <= 65535 - 96 && m >= |payload| + 96
    requires WriteBody(c, w, payload).Done?
    ensures var p := WriteBody(c, w, payload);
            Write(c, w, payload, m) == (Split(c, p.s), Reply(OK, p.out)) && Live(Split(c, p.s))
  {
    hide WriteBody, Split;
    WriteKeeps(c, w, payload, m);
  }

  lemma ReadFinishes(c: Crypto, r: Session, message: Bytes, n: nat)
    requires Lawful(c) && Live(r) && ValidStep(r) && !MyTurn(r) && |message| <= 65535 && ReadBody(c, r, message, n).Done?
    ensures var q := ReadBody(c, r, message, n);
            Read(c, r, message, n) == (Split(c, q.s), Reply(OK, q.out)) && Live(Split(c, q.s))
  {
    hide ReadBody, Split;
    ReadKeeps(c, r, message, n);
  }

  lemma SplitKeepsRole(c: Crypto, s: Session)
    ensures var s' := Split(c, s); s'.step == s.step + 1 && s'.pattern == s.pattern && s'.initiator == s.initiator
  {
  }

  lemma AfterSplit(c: Crypto, w: Session, a: Session, b: Session, k: Known)
    requires Lawful(c) && Agree(c, a, b, k) && Contributory(c, a, b) && Idle(a) && Idle(b)
    requires ValidStep(w) && MyTurn(w) && a.pattern == w.pattern && a.step == w.step && a.initiator == w.initiator
    requires Live(Split(c, a)) && Live(Split(c, b)) && a.nonce as int <= 10 * (w.step + 1)
    ensures w.step + 1 != Steps(w.pattern) ==> Ready(c, Split(c, b), Split(c, a), Turned(k))
    ensures w.step + 1 == Steps(w.pattern) && k.writerHasStatic && k.readerHasStatic ==> Linked(Split(c, a), Split(c, b))
  {
    if w.step + 1 != Steps(w.pattern) {
      SplitTurns(c, a, b, k);
    } else {
      SplitCrosses(c, a, b, k);
    }
  }

  lemma BodiesKeepRole(c: Crypto, w: Session, r: Session, payload: Bytes, n: nat)
    requires Lawful(c) && Live(w) && Live(r) && ValidStep(w) && ValidStep(r)
    requires WriteBody(c, w, payload).Done? && ReadBody(c, r, WriteBody(c, w, payload).out, n).Done?
    ensures var p := WriteBody(c, w, payload); var q := ReadBody(c, r, p.out, n);
            && p.s.pattern == w.pattern && p.s.step == w.step && p.s.initiator == w.initiator && Idle(p.s)
            && q.s.pattern == r.pattern && q.s.step == r.step && q.s.initiator == r.initiator && Idle(q.s)
            && |p.out| == |payload| + Overhead(w.pattern, w.step)
  {
    WriteBodyShape(c, w, payload);
    ReadBodyShape(c, r, WriteBody(c, w, payload).out, n);
  }

  // -------------------------------------------------------------------------------- whole handshakes

  /** The key material of two parties that mean to talk to each other. */
  datatype Keys = Keys(psk: Bytes, prologue: Bytes, iStatic: Bytes, iEphemeral: Bytes, rStatic: Bytes, rEphemeral: Bytes)

  /** Every private key has a public half, no exchange that both patterns make gives zero, and pins name the right peer. */
  ghost predicate Honest(c: Crypto, x: Keys, iPin: Option<Bytes>, rPin: Option<Bytes>) {
    && Public(c, x.iStatic).Some? && Public(c, x.rStatic).Some?
    && Public(c, x.iEphemeral).Some? && Public(c, x.rEphemeral).Some?
    && c.dh(x.iEphemeral, Public(c, x.rEphemeral).value).Some? && c.dh(x.iEphemeral, Public(c, x.rStatic).value).Some?
    && c.dh(x.iStatic, Public(c, x.rEphemeral).value).Some?
    && (iPin.Some? ==> iPin == Public(c, x.rStatic)) && (rPin.Some? ==> rPin == Public(c, x.iStatic))
  }

  /** KK also mixes the two static keys. */
  ghost predicate StaticsMix(c: Crypto, x: Keys)
    requires Public(c, x.rStatic).Some?
  {
    c.dh(x.iStatic, Public(c, x.rStatic).value).Some?
  }

  function Initiator(c: Crypto, pattern: int, x: Keys, pin: Option<Bytes>): Session {
    Init(c, pattern, true, x.psk, x.prologue, x.iStatic, x.iEphemeral, pin).0
  }

  function Responder(c: Crypto, pattern: int, x: Keys, pin: Option<Bytes>): Session {
    Init(c, pattern, false, x.psk, x.prologue, x.rStatic, x.rEphemeral, pin).0
  }

  const NOTHING: Known := Known(false, false, false, false)
  const STATICS: Known := Known(true, false, true, false)

  lemma StartXX(c: Crypto, x: Keys, iPin: Option<Bytes>, rPin: Option<Bytes>)
    requires Lawful(c) && Honest(c, x, iPin, rPin)
    ensures Ready(c, Initiator(c, XX, x, iPin), Responder(c, XX, x, rPin), NOTHING)
  {
  }

  lemma StartKK(c: Crypto, x: Keys, iPin: Option<Bytes>, rPin: Option<Bytes>)
    requires Lawful(c) && Honest(c, x, iPin, rPin) && iPin.Some? && rPin.Some? && StaticsMix(c, x)
    ensures Ready(c, Initiator(c, KK, x, iPin), Responder(c, KK, x, rPin), STATICS)
  {
  }

  lemma ConsMix(t: Token, ts: seq<Token>, k: Known, i: bool)
    ensures CanMixAll(k, [t] + ts, i) <==> CanMix(k, t, i) && CanMixAll(Learn(k, t), ts, i)
    ensures LearnAll(k, [t] + ts) == LearnAll(Learn(k, t), ts)
  {
    assert ([t] + ts)[1..] == ts;
  }

  /** In XX each party has received every key before the token that uses it. */
  lemma XXTablesMix()
    ensures CanMixAll(NOTHING, Tokens(XX, 0), true)
    ensures var k1 := Turned(LearnAll(NOTHING, Tokens(XX, 0)));
            && CanMixAll(k1, Tokens(XX, 1), false)
            && var k2 := Turned(LearnAll(k1, Tokens(XX, 1)));
               CanMixAll(k2, Tokens(XX, 2), true) && LearnAll(k2, Tokens(XX, 2)) == Known(true, true, true, true)
  {
    ConsMix(E, [], NOTHING, true);
    var k1 := Known(false, true, false, false);
    var k := Known(false, true, false, true);
    ConsMix(PSK, [], Known(false, true, true, true), false);
    ConsMix(ES, [PSK], Known(false, true, true, true), false);
    ConsMix(S, [ES, PSK], k, false);
    ConsMix(EE, [S, ES, PSK], k, false);
    ConsMix(E, [EE, S, ES, PSK], k1, false);
    ConsMix(SE, [], Known(true, true, true, true), true);
    ConsMix(S, [SE], Known(true, true, false, true), true);
  }

  lemma KKTablesMix()
    ensures CanMixAll(STATICS, Tokens(KK, 0), true)
    ensures var k1 := Turned(LearnAll(STATICS, Tokens(KK, 0)));
            CanMixAll(k1, Tokens(KK, 1), false) && LearnAll(k1, Tokens(KK, 1)) == Known(true, true, true, true)
  {
    var k := Known(true, false, true, true);
    ConsMix(SS, [], k, true);
    ConsMix(ES, [SS], k, true);
    ConsMix(E, [ES, SS], STATICS, true);
    ConsMix(PSK, [E, ES, SS], STATICS, true);
    var k' := Known(true, true, true, true);
    ConsMix(SE, [], k', false);
    ConsMix(EE, [SE], k', false);
    ConsMix(E, [EE, SE], Known(true, true, true, false), false);
  }

  /** XXpsk2: three messages deliver three arbitrary payloads, in step throughout, and leave a linked pair. */
  lemma XXCompletes(c: Crypto, x: Keys, iPin: Option<Bytes>, rPin: Option<Bytes>,
                    p0: Bytes, p1: Bytes, p2: Bytes, m: nat, n: nat)
    requires Lawful(c) && Honest(c, x, iPin, rPin) && Fits(p0, m, n) && Fits(p1, m, n) && Fits(p2, m, n)
    ensures var (i1, a0) := Write(c, Initiator(c, XX, x, iPin), p0, m);
            var (r1, b0) := Read(c, Responder(c, XX, x, rPin), a0.bytes, n);
            var (r2, a1) := Write(c, r1, p1, m);
            var (i2, b1) := Read(c, i1, a1.bytes, n);
            var (i3, a2) := Write(c, i2, p2, m);
            var (r3, b2) := Read(c, r2, a2.bytes, n);
            && b0 == Reply(OK, p0) && b1 == Reply(OK, p1) && b2 == Reply(OK, p2)
            && InStep(i1, r1) && InStep(i2, r2) && Linked(i3, r3)
  {
    hide Responder, Write, Read, Lawful;
    StartXX(c, x, iPin, rPin);
    XXTablesMix();
    var i0, r0 := Initiator(c, XX, x, iPin), Responder(c, XX, x, rPin);
    MessageDelivered(c, i0, r0, NOTHING, p0, m, n);
    var k1 := Turned(LearnAll(NOTHING, Tokens(XX, 0)));
    var (i1, a0) := Write(c, i0, p0, m);
    var r1 := Read(c, r0, a0.bytes, n).0;
    assert Ready(c, r1, i1, k1) && r1.step == 1 && r1.pattern == XX && !r1.initiator;
    MessageDelivered(c, r1, i1, k1, p1, m, n);
    var k2 := Turned(LearnAll(k1, Tokens(XX, 1)));
    var (r2, a1) := Write(c, r1, p1, m);
    var i2 := Read(c, i1, a1.bytes, n).0;
    assert Ready(c, i2, r2, k2) && i2.step == 2 && i2.pattern == XX && i2.initiator;
    MessageDelivered(c, i2, r2, k2, p2, m, n);
  }

  /** KKpsk0: two messages do. */
  lemma KKCompletes(c: Crypto, x: Keys, iPin: Option<Bytes>, rPin: Option<Bytes>, p0: Bytes, p1: Bytes, m: nat, n: nat)
    requires Lawful(c) && Honest(c, x, iPin, rPin) && iPin.Some? && rPin.Some? && StaticsMix(c, x) && Fits(p0, m, n) && Fits(p1, m, n)
    ensures var (i1, a0) := Write(c, Initiator(c, KK, x, iPin), p0, m);
            var (r1, b0) := Read(c, Responder(c, KK, x, rPin), a0.bytes, n);
            var (r2, a1) := Write(c, r1, p1, m);
            var (i2, b1) := Read(c, i1, a1.bytes, n);
            && b0 == Reply(OK, p0) && b1 == Reply(OK, p1) && InStep(i1, r1) && Linked(r2, i2)
  {
    hide Tokens, Write, Read, Lawful, CanMixAll, Initiator;
    StartKK(c, x, iPin, rPin);
    KKTablesMix();
    var i0, r0 := Initiator(c, KK, x, iPin), Responder(c, KK, x, rPin);
    MessageDelivered(c, i0, r0, STATICS, p0, m, n);
    var k1 := Turned(LearnAll(STATICS, Tokens(KK, 0)));
    var (i1, a0) := Write(c, i0, p0, m);
    var r1 := Read(c, r0, a0.bytes, n).0;
    assert Ready(c, r1, i1, k1) && r1.step == 1 && r1.pattern == KK && !r1.initiator;
    MessageDelivered(c, r1, i1, k1, p1, m, n);
  }
}
