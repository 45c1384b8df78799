/** What every operation of a Noise party keeps, and what every run of operations keeps. */
module NoiseLifecycle {
  import opened Status
  import opened Octets
  import opened NoiseSession

  /** The facts about the primitives that the theorems take as hypotheses. */
  ghost predicate Lawful(c: Crypto) {
    && (forall k, b :: c.dh(k, b).Some? ==> |c.dh(k, b).value| == 32)
    && (forall k, n, ad, p :: |c.aeadSeal(k, n, ad, p)| == |p| + 16)
    && (forall k, n, ad, p :: c.aeadOpen(k, n, ad, c.aeadSeal(k, n, ad, p)) == Some(p))
    && (forall k, n, ad, b :: c.aeadOpen(k, n, ad, b).Some? ==> |c.aeadOpen(k, n, ad, b).value| + 16 == |b|)
    && (forall a, b :: Public(c, a).Some? && Public(c, b).Some? ==>
          c.dh(a, Public(c, b).value) == c.dh(b, Public(c, a).value))
  }

  /** Only what was sealed opens, and hashes have 32 bytes. */
  ghost predicate Authentic(c: Crypto) {
    && (forall k, n, ad, b, p :: c.aeadOpen(k, n, ad, b) == Some(p) ==> b == c.aeadSeal(k, n, ad, p))
    && (forall x :: |c.hash(x)| == 32)
  }

  /** Primitives with these laws exist, so no theorem below is vacuous. */
  lemma LawsAreConsistent() returns (c: Crypto)
    ensures Lawful(c) && Authentic(c)
  {
    c := Crypto(x => Zeros(32), (k, x) => Zeros(32), (k, b) => Some(Zeros(32)),
                (k, n, ad, p) => p + Zeros(16),
                (k, n, ad, b) => if |b| >= 16 && b[|b| - 16..] == Zeros(16) then Some(b[..|b| - 16]) else None);
    forall k: Bytes, n: Bytes, ad: Bytes, p: Bytes
      ensures c.aeadOpen(k, n, ad, c.aeadSeal(k, n, ad, p)) == Some(p)
    {
      assert (p + Zeros(16))[..|p|] == p && (p + Zeros(16))[|p|..] == Zeros(16);
    }
    forall k: Bytes, n: Bytes, ad: Bytes, b: Bytes, p: Bytes | c.aeadOpen(k, n, ad, b) == Some(p)
      ensures b == c.aeadSeal(k, n, ad, p)
    {
      assert b == b[..|b| - 16] + b[|b| - 16..];
    }
  }

  // --------------------------------------------------------------------------------- the invariant

  /** The peer's static key has been received, or was given at the start. */
  predicate RemoteKnown(s: Session) {
    s.pattern == KK || s.ready || (s.initiator && s.step >= 2)
  }

  predicate HandshakeSecretsGone(s: Session) {
    s.localStatic == Z && s.ephemeral == Z && s.ck == Z && s.key == Z && s.psk == Z
  }

  predicate Live(s: Session) {
    && !s.failed
    && (s.pattern == XX || s.pattern == KK) && 0 <= s.step <= Steps(s.pattern)
    && (s.ready <==> s.step == Steps(s.pattern))
    && (s.hasKey <==> s.step > 0)
    && |s.localPublic| == 32
    && (s.pattern == KK ==> s.hasPin)
    && (s.hasPin && RemoteKnown(s) ==> s.remoteStatic == s.pin)
    && (s.ready ==> HandshakeSecretsGone(s))
    && (!s.ready ==> s.sendNonce == s.receiveNonce == 0 && !s.sendChunked && !s.receiveChunked)
  }

  predicate Sound(s: Session) {
    s == FAILED || Live(s)
  }

  datatype Op =
    | WriteOp(payload: Bytes, capacity: nat)
    | ReadOp(message: Bytes, capacity: nat)
    | EncryptOp(frame: Bytes, capacity: nat)
    | DecryptOp(box: Bytes, capacity: nat)

  function Apply(c: Crypto, s: Session, op: Op): (Session, Reply) {
    match op
    case WriteOp(p, n) => Write(c, s, p, n)
    case ReadOp(m, n) => Read(c, s, m, n)
    case EncryptOp(f, n) => Encrypt(c, s, f, n)
    case DecryptOp(b, n) => Decrypt(c, s, b, n)
  }

  /** The state a sequence of operations, in any order and with any arguments, leads to. */
  function Run(c: Crypto, s: Session, ops: seq<Op>): Session
    decreases |ops|
  {
    if ops == [] then s else Run(c, Apply(c, s, ops[0]).0, ops[1..])
  }

  // ------------------------------------------------------------------------------- token by token

  /** Only the symmetric state differs. */
  ghost predicate SymmetricOnly(s: Session, s': Session) {
    s' == s.(ck := s'.ck, hash := s'.hash, key := s'.key, nonce := s'.nonce, hasKey := s'.hasKey)
  }

  /** Besides the symmetric state, the peer's keys may differ; a pinned static key only by becoming the pin. */
  ghost predicate RemoteToo(s: Session, s': Session) {
    && SymmetricOnly(s.(remoteStatic := s'.remoteStatic, remoteEphemeral := s'.remoteEphemeral), s')
    && (s'.remoteStatic == s.remoteStatic || (s.hasPin ==> s'.remoteStatic == s.pin))
  }

  function KeyAfter(t: Token, hasKey: bool): bool {
    hasKey || t != S
  }

  function TokenLength(t: Token, hasKey: bool): nat {
    if t == E then 32 else if t == S then (if hasKey then 48 else 32) else 0
  }

  function TokensLength(ts: seq<Token>, hasKey: bool): nat {
    if ts == [] then 0 else TokenLength(ts[0], hasKey) + TokensLength(ts[1..], KeyAfter(ts[0], hasKey))
  }

  function TokensKey(ts: seq<Token>, hasKey: bool): bool {
    if ts == [] then hasKey else TokensKey(ts[1..], KeyAfter(ts[0], hasKey))
  }

  lemma WriteTokenShape(c: Crypto, s: Session, t: Token)
    requires Lawful(c) && |s.localPublic| == 32
    ensures var p := WriteToken(c, s, t);
            && (p.Stop? ==> p.rc != OK)
            && (p.Done? ==> SymmetricOnly(s, p.s) && p.s.hasKey == KeyAfter(t, s.hasKey)
                            && |p.out| == TokenLength(t, s.hasKey))
  {
  }

  lemma {:induction false} WriteTokensShape(c: Crypto, s: Session, ts: seq<Token>, out: Bytes)
    requires Lawful(c) && |s.localPublic| == 32
    ensures var p := WriteTokens(c, s, ts, out);
            && (p.Stop? ==> p.rc != OK)
            && (p.Done? ==> SymmetricOnly(s, p.s) && p.s.hasKey == TokensKey(ts, s.hasKey)
                            && |p.out| == |out| + TokensLength(ts, s.hasKey))
    decreases |ts|
  {
    if ts != [] {
      WriteTokenShape(c, s, ts[0]);
      var p := WriteToken(c, s, ts[0]);
      if p.Done? {
        WriteTokensShape(c, p.s, ts[1..], out + p.out);
      }
    }
  }

  lemma DecryptShape(c: Crypto, s: Session, data: Bytes)
    requires Lawful(c)
    ensures var p := DecryptAndHash(c, s, data);
            && (p.Stop? ==> p.rc != OK)
            && (p.Done? ==> SymmetricOnly(s, p.s) && p.s.hasKey == s.hasKey && |data| == |p.out| + TagLength(s))
  {
  }

  ghost predicate TokenRead(s: Session, t: Token, message: Bytes, p: Progress) {
    && (p.Stop? ==> p.rc != OK)
    && (p.Done? ==> RemoteToo(s, p.s) && p.s.hasKey == KeyAfter(t, s.hasKey)
                    && |message| == |p.out| + TokenLength(t, s.hasKey)
                    && (t == S && s.hasPin ==> p.s.remoteStatic == s.pin))
  }

  lemma ReadStaticShape(c: Crypto, s: Session, message: Bytes)
    requires Lawful(c)
    ensures TokenRead(s, S, message, ReadToken(c, s, S, message))
  {
    hide DecryptAndHash, Lawful;
    if |message| >= 32 + TagLength(s) {
      DecryptShape(c, s, message[..32 + TagLength(s)]);
    }
  }

  lemma ReadEphemeralShape(c: Crypto, s: Session, message: Bytes)
    ensures TokenRead(s, E, message, ReadToken(c, s, E, message))
  {
    if |message| >= 32 {
      var e := message[..32];
      var s' := MixHash(c, s.(remoteEphemeral := e), e);
      assert RemoteToo(s, s') && RemoteToo(s, MixKey(c, s', e));
    }
  }

  lemma SymmetricIsRemoteToo(s: Session, s': Session)
    requires SymmetricOnly(s, s')
    ensures RemoteToo(s, s')
  {
  }

  lemma MixShape(c: Crypto, s: Session, t: Token, message: Bytes)
    requires t != E && t != S
    ensures TokenRead(s, t, message, ReadToken(c, s, t, message))
  {
    hide RemoteToo;
    var p := WriteToken(c, s, t);
    if p.Done? {
      assert SymmetricOnly(s, p.s) && p.s.hasKey;
      SymmetricIsRemoteToo(s, p.s);
      assert ReadToken(c, s, t, message) == Done(p.s, message);
    }
  }

  lemma ReadTokenShape(c: Crypto, s: Session, t: Token, message: Bytes)
    requires Lawful(c)
    ensures TokenRead(s, t, message, ReadToken(c, s, t, message))
  {
    match t
    case S => ReadStaticShape(c, s, message);
    case E => ReadEphemeralShape(c, s, message);
    case _ => MixShape(c, s, t, message);
  }

  lemma {:induction false} ReadTokensShape(c: Crypto, s: Session, ts: seq<Token>, message: Bytes)
    requires Lawful(c)
    ensures var p := ReadTokens(c, s, ts, message);
            && (p.Stop? ==> p.rc != OK)
            && (p.Done? ==> RemoteToo(s, p.s) && p.s.hasKey == TokensKey(ts, s.hasKey)
                            && |message| == |p.out| + TokensLength(ts, s.hasKey)
                            && (S in ts && s.hasPin ==> p.s.remoteStatic == s.pin))
    decreases |ts|
  {
    hide ReadToken, Lawful;
    if ts != [] {
      ReadTokenShape(c, s, ts[0], message);
      var p := ReadToken(c, s, ts[0], message);
      if p.Done? {
        ReadTokensShape(c, p.s, ts[1..], p.out);
        assert S in ts ==> S == ts[0] || S in ts[1..];
      }
    }
  }

  /** Bytes a handshake message adds to its payload. */
  function Overhead(pattern: int, step: int): nat {
    if pattern == XX then (if step == 0 then 48 else if step == 1 then 96 else 64) else 48
  }

  ghost predicate TableAddsUp(pattern: int, step: int) {
    var ts := Tokens(pattern, step);
    && TokensKey(ts, step > 0)
    && TokensLength(ts, step > 0) + 16 == Overhead(pattern, step)
    && (S in ts <==> pattern == XX && step > 0)
  }

  lemma TablesAddUp(pattern: int, step: int)
    requires (pattern == XX && 0 <= step < 3) || (pattern == KK && 0 <= step < 2)
    ensures TableAddsUp(pattern, step)
  {
    if pattern == XX {
      XXTablesAddUp(step);
    } else {
      KKTablesAddUp(step);
    }
  }

  lemma XXTablesAddUp(step: int)
    requires 0 <= step < 3
    ensures TableAddsUp(XX, step)
  {
    if step == 0 {
      Cons(E, [], false);
    } else if step == 1 {
      XXReplyAddsUp();
    } else {
      Cons(SE, [], true); Cons(S, [SE], true);
    }
  }

  lemma NoTokens()
    ensures TokensKey([], true) && TokensLength([], true) == 0
  {
  }

  lemma XXReplyAddsUp()
    ensures TableAddsUp(XX, 1)
  {
    hide TokensKey, TokensLength;
    NoTokens();
    Cons(PSK, [], true); Cons(ES, [PSK], true); Cons(S, [ES, PSK], true); Cons(EE, [S, ES, PSK], true);
    Cons(E, [EE, S, ES, PSK], true);
    assert [PSK] + [] == [PSK] && [ES] + [PSK] == [ES, PSK] && [S] + [ES, PSK] == [S, ES, PSK];
    assert [EE] + [S, ES, PSK] == [EE, S, ES, PSK] && [E] + [EE, S, ES, PSK] == [E, EE, S, ES, PSK];
  }

  lemma KKTablesAddUp(step: int)
    requires 0 <= step < 2
    ensures TableAddsUp(KK, step)
  {
    if step == 0 {
      Cons(SS, [], true); Cons(ES, [SS], true); Cons(E, [ES, SS], true); Cons(PSK, [E, ES, SS], false);
    } else {
      Cons(SE, [], true); Cons(EE, [SE], true); Cons(E, [EE, SE], true);
    }
  }

  lemma Cons(t: Token, ts: seq<Token>, hasKey: bool)
    ensures TokensKey([t] + ts, hasKey) == TokensKey(ts, KeyAfter(t, hasKey))
    ensures TokensLength([t] + ts, hasKey) == TokenLength(t, hasKey) + TokensLength(ts, KeyAfter(t, hasKey))
    ensures S in [t] + ts <==> t == S || S in ts
  {
    assert ([t] + ts)[1..] == ts;
  }

  lemma SplitKeeps(c: Crypto, s: Session)
    requires Live(s.(hasKey := s.step > 0)) && !s.ready && s.hasKey
    requires s.hasPin && s.pattern == XX && (if s.initiator then s.step == 1 else s.step == 2) ==> s.remoteStatic == s.pin
    ensures Live(Split(c, s)) && Split(c, s).step == s.step + 1
  {
  }

  // ---------------------------------------------------------------------------------- main results

  lemma InitSound(c: Crypto, pattern: int, initiator: bool, psk: Bytes, prologue: Bytes,
                  staticKey: Bytes, ephemeralKey: Bytes, pin: Option<Bytes>)
    requires Lawful(c)
    ensures var (s, rc) := Init(c, pattern, initiator, psk, prologue, staticKey, ephemeralKey, pin);
            Sound(s) && (rc == OK <==> s != FAILED)
  {
  }

  /** A handshake message is exactly its payload plus the pattern's overhead, and the step count moves by one. */
  lemma WriteKeeps(c: Crypto, s: Session, payload: Bytes, capacity: nat)
    requires Lawful(c) && Sound(s)
    ensures var (s', r) := Write(c, s, payload, capacity);
            && Sound(s') && (r.rc != OK ==> s' == FAILED && r.bytes == [])
            && (r.rc == OK ==> Live(s) && Live(s') && s'.step == s.step + 1
                               && |r.bytes| == |payload| + Overhead(s.pattern, s.step))
  {
    hide Lawful, Split, WriteBody;
    if Live(s) && ValidStep(s) && MyTurn(s) {
      WriteBodyShape(c, s, payload);
      var p := WriteBody(c, s, payload);
      if p.Done? {
        SplitKeeps(c, p.s);
      }
    }
  }

  lemma WriteBodyShape(c: Crypto, s: Session, payload: Bytes)
    requires Lawful(c) && Live(s) && ValidStep(s)
    ensures var p := WriteBody(c, s, payload);
            && (p.Stop? ==> p.rc != OK)
            && (p.Done? ==> SymmetricOnly(s, p.s) && p.s.hasKey
                            && |p.out| == |payload| + Overhead(s.pattern, s.step))
  {
    hide Tokens, WriteTokens, TokensLength, TokensKey, Overhead;
    WriteTokensShape(c, s, Tokens(s.pattern, s.step), []);
    TablesAddUp(s.pattern, s.step);
  }

  lemma ReadKeeps(c: Crypto, s: Session, message: Bytes, capacity: nat)
    requires Lawful(c) && Sound(s)
    ensures var (s', r) := Read(c, s, message, capacity);
            && Sound(s') && (r.rc != OK ==> s' == FAILED && r.bytes == [])
            && (r.rc == OK ==> Live(s) && Live(s') && s'.step == s.step + 1
                               && |message| == |r.bytes| + Overhead(s.pattern, s.step))
  {
    hide Lawful, ReadBody;
    if Live(s) && ValidStep(s) && !MyTurn(s) {
      ReadBodyShape(c, s, message, capacity);
      var p := ReadBody(c, s, message, capacity);
      if p.Done? {
        SplitKeeps(c, p.s);
      }
    }
  }

  lemma ReadBodyShape(c: Crypto, s: Session, message: Bytes, capacity: nat)
    requires Lawful(c) && Live(s) && ValidStep(s)
    ensures var p := ReadBody(c, s, message, capacity);
            && (p.Stop? ==> p.rc != OK)
            && (p.Done? ==> RemoteToo(s, p.s) && p.s.hasKey
                            && |message| == |p.out| + Overhead(s.pattern, s.step)
                            && (s.pattern == XX && s.step > 0 && s.hasPin ==> p.s.remoteStatic == s.pin))
  {
    hide Tokens, ReadTokens, Lawful, TokensLength, TokensKey, TableAddsUp;
    ReadTokensShape(c, s, Tokens(s.pattern, s.step), message);
    TablesAddUp(s.pattern, s.step);
    var p := ReadTokens(c, s, Tokens(s.pattern, s.step), message);
    if p.Done? {
      DecryptShape(c, p.s, p.out);
    }
  }

  /** Any operation, with any arguments: the invariant holds after it, and an error leaves only the failure mark. */
  lemma ApplyKeeps(c: Crypto, s: Session, op: Op)
    requires Lawful(c) && Sound(s)
    ensures var (s', r) := Apply(c, s, op);
            && Sound(s') && (r.rc != OK ==> s' == FAILED && r.bytes == [])
            && (s == FAILED ==> r.rc != OK)
  {
    match op
    case WriteOp(p, n) => WriteKeeps(c, s, p, n);
    case ReadOp(m, n) => ReadKeeps(c, s, m, n);
    case EncryptOp(_, _) =>
    case DecryptOp(_, _) =>
  }

  lemma {:induction false} RunKeeps(c: Crypto, s: Session, ops: seq<Op>)
    requires Lawful(c) && Sound(s)
    ensures Sound(Run(c, s, ops))
    ensures s == FAILED ==> Run(c, s, ops) == FAILED
    decreases |ops|
  {
    if ops != [] {
      ApplyKeeps(c, s, ops[0]);
      RunKeeps(c, Apply(c, s, ops[0]).0, ops[1..]);
    }
  }

  /** Over every run from set-up: a ready party has finished its pattern, wiped its secrets and met its pin. */
  lemma ReadyMeansFinished(c: Crypto, pattern: int, initiator: bool, psk: Bytes, prologue: Bytes,
                           staticKey: Bytes, ephemeralKey: Bytes, pin: Option<Bytes>, ops: seq<Op>)
    requires Lawful(c)
    ensures var s := Run(c, Init(c, pattern, initiator, psk, prologue, staticKey, ephemeralKey, pin).0, ops);
            s.ready ==> !s.failed && HandshakeSecretsGone(s) && s.pattern == pattern
                        && s.step == Steps(pattern) && (pin.Some? ==> s.remoteStatic == pin.value)
  {
    hide Lawful, Run;
    InitSound(c, pattern, initiator, psk, prologue, staticKey, ephemeralKey, pin);
    var s := Init(c, pattern, initiator, psk, prologue, staticKey, ephemeralKey, pin).0;
    RunKeeps(c, s, ops);
    RunKeepsRole(c, s, ops);
  }

  /** Pattern, role and pin never change while the party is alive. */
  ghost predicate SameRole(s: Session, s': Session) {
    s' == FAILED || (s'.pattern == s.pattern && s'.initiator == s.initiator && s'.hasPin == s.hasPin && s'.pin == s.pin)
  }

  lemma ApplyKeepsRole(c: Crypto, s: Session, op: Op)
    requires Lawful(c) && Sound(s)
    ensures SameRole(s, Apply(c, s, op).0)
  {
    hide Lawful, Overhead, ValidStep, WriteBody, ReadBody;
    match op
    case WriteOp(p, n) =>
      if Live(s) && ValidStep(s) { WriteBodyShape(c, s, p); }
    case ReadOp(m, n) =>
      if Live(s) && ValidStep(s) { ReadBodyShape(c, s, m, n); }
    case EncryptOp(_, _) =>
    case DecryptOp(_, _) =>
  }

  lemma {:induction false} RunKeepsRole(c: Crypto, s: Session, ops: seq<Op>)
    requires Lawful(c) && Sound(s)
    ensures SameRole(s, Run(c, s, ops))
    decreases |ops|
  {
    if ops != [] {
      ApplyKeeps(c, s, ops[0]);
      ApplyKeepsRole(c, s, ops[0]);
      RunKeeps(c, Apply(c, s, ops[0]).0, ops[1..]);
      RunKeepsRole(c, Apply(c, s, ops[0]).0, ops[1..]);
    }
  }
}
