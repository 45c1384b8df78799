/**
 * One party's Noise state as a value, and what each operation makes of it: Noise Protocol Framework
 * revision 34, patterns XXpsk2 and KKpsk0. The class in Noise.dfy is proved against these functions.
 */
module NoiseSession {
  import opened Status
  import opened Words
  import opened Octets

  type Bytes = seq<uint8>

  datatype Option<+T> = None | Some(value: T)

  /** The primitives the state machine is built on, taken as given. */
  datatype Crypto = Crypto(
    hash: Bytes -> Bytes,
    hmac: (Bytes, Bytes) -> Bytes,
    // None stands for the all-zero result, which the library reports as an error
    dh: (Bytes, Bytes) -> Option<Bytes>,
    // key, nonce, associated data, plaintext or ciphertext with tag
    aeadSeal: (Bytes, Bytes, Bytes, Bytes) -> Bytes,
    aeadOpen: (Bytes, Bytes, Bytes, Bytes) -> Option<Bytes>)

  const XX: int := 1
  const KK: int := 2
  const CHUNK_SIZE: int := 65000
  const NONCE_LIMIT: uint64 := 0xFFFF_FFFF_FFFF_FFFF

  datatype Token = E | S | EE | ES | SE | SS | PSK

  const BASE_POINT: Bytes := [9] + Zeros(31)

  datatype Session = Session(
    ck: Bytes, hash: Bytes, key: Bytes, psk: Bytes,
    localStatic: Bytes, localPublic: Bytes, ephemeral: Bytes, remoteStatic: Bytes, remoteEphemeral: Bytes,
    pin: Bytes, sendKey: Bytes, receiveKey: Bytes,
    nonce: uint64, sendNonce: uint64, receiveNonce: uint64,
    pattern: int, initiator: bool, step: int, hasKey: bool, hasPin: bool, ready: bool, failed: bool,
    sendChunked: bool, receiveChunked: bool)

  const Z: Bytes := Zeros(32)

  const CLEARED: Session :=
    Session(Z, Z, Z, Z, Z, Z, Z, Z, Z, Z, Z, Z, 0, 0, 0, 0, false, 0, false, false, false, false, false, false)

  /** What every error leaves behind: nothing but the mark of failure. */
  const FAILED: Session := CLEARED.(failed := true)

  /** The outcome of one operation: the return code, and the bytes written, none of them on error. */
  datatype Reply = Reply(rc: int, bytes: Bytes)

  // ------------------------------------------------------------------------------- symmetric state

  function Public(c: Crypto, key: Bytes): Option<Bytes> {
    c.dh(key, BASE_POINT)
  }

  /** The first outputs of HKDF: a temporary key, then a chain of one-byte counters. */
  function Hkdf(c: Crypto, ck: Bytes, input: Bytes): (Bytes, Bytes, Bytes) {
    var temp := c.hmac(ck, input);
    var a := c.hmac(temp, [1]);
    var b := c.hmac(temp, a + [2]);
    (a, b, c.hmac(temp, b + [3]))
  }

  function MixHash(c: Crypto, s: Session, data: Bytes): Session {
    s.(hash := c.hash(s.hash + data))
  }

  function MixKey(c: Crypto, s: Session, data: Bytes): Session {
    var (a, b, _) := Hkdf(c, s.ck, data);
    s.(ck := a, key := b, nonce := 0, hasKey := true)
  }

  function MixKeyAndHash(c: Crypto, s: Session, data: Bytes): Session {
    var (a, b, d) := Hkdf(c, s.ck, data);
    s.(ck := a, hash := c.hash(s.hash + b), key := d, nonce := 0, hasKey := true)
  }

  /** Four zero bytes and the counter, most significant byte first. */
  function NonceBytes(n: uint64): (b: Bytes)
    ensures |b| == 12
  {
    Zeros(4) + BigEndian(n as nat, 8)
  }

  function Seal(c: Crypto, key: Bytes, n: uint64, ad: Bytes, data: Bytes): Option<Bytes> {
    if n == NONCE_LIMIT then None else Some(c.aeadSeal(key, NonceBytes(n), ad, data))
  }

  function Unseal(c: Crypto, key: Bytes, n: uint64, ad: Bytes, data: Bytes): Option<Bytes> {
    if |data| < 16 || n == NONCE_LIMIT then None else c.aeadOpen(key, NonceBytes(n), ad, data)
  }

  function TagLength(s: Session): nat {
    if s.hasKey then 16 else 0
  }

  datatype Progress = Done(s: Session, out: Bytes) | Stop(rc: int)

  function EncryptAndHash(c: Crypto, s: Session, data: Bytes): Progress {
    if s.hasKey then
      match Seal(c, s.key, s.nonce, s.hash, data)
      case None => Stop(ERR_AUTH)
      case Some(box) => Done(MixHash(c, s.(nonce := s.nonce + 1), box), box)
    else
      Done(MixHash(c, s, data), data)
  }

  function DecryptAndHash(c: Crypto, s: Session, data: Bytes): Progress {
    if s.hasKey then
      match Unseal(c, s.key, s.nonce, s.hash, data)
      case None => Stop(ERR_AUTH)
      case Some(text) => Done(MixHash(c, s.(nonce := s.nonce + 1), data), text)
    else
      Done(MixHash(c, s, data), data)
  }

  // -------------------------------------------------------------------------------------- handshake

  function Steps(pattern: int): int {
    if pattern == XX then 3 else 2
  }

  predicate ValidStep(s: Session) {
    (s.pattern == XX && 0 <= s.step < 3) || (s.pattern == KK && 0 <= s.step < 2)
  }

  predicate MyTurn(s: Session) {
    (s.step % 2 == 0) == s.initiator
  }

  function Tokens(pattern: int, step: int): seq<Token> {
    if pattern == XX then
      if step == 0 then [E] else if step == 1 then [E, EE, S, ES, PSK] else [S, SE]
    else
      if step == 0 then [PSK, E, ES, SS] else [E, EE, SE]
  }

  /** Which of its own private keys and which of the peer's public keys a party combines. */
  function DhPair(s: Session, t: Token): (Bytes, Bytes)
    requires t in {EE, ES, SE, SS}
  {
    match t
    case EE => (s.ephemeral, s.remoteEphemeral)
    case ES => if s.initiator then (s.ephemeral, s.remoteStatic) else (s.localStatic, s.remoteEphemeral)
    case SE => if s.initiator then (s.localStatic, s.remoteEphemeral) else (s.ephemeral, s.remoteStatic)
    case SS => (s.localStatic, s.remoteStatic)
  }

  function MixDh(c: Crypto, s: Session, t: Token): Progress
    requires t in {EE, ES, SE, SS}
  {
    var (mine, theirs) := DhPair(s, t);
    match c.dh(mine, theirs)
    case None => Stop(ERR_AUTH)
    case Some(shared) => Done(MixKey(c, s, shared), [])
  }

  function WriteToken(c: Crypto, s: Session, t: Token): Progress {
    match t
    case E =>
      (match Public(c, s.ephemeral)
       case None => Stop(ERR_AUTH)
       case Some(e) => Done(MixKey(c, MixHash(c, s, e), e), e))
    case S => EncryptAndHash(c, s, s.localPublic)
    case PSK => Done(MixKeyAndHash(c, s, s.psk), [])
    case _ => MixDh(c, s, t)
  }

  function WriteTokens(c: Crypto, s: Session, ts: seq<Token>, out: Bytes): Progress
    decreases |ts|
  {
    if ts == [] then Done(s, out)
    else
      match WriteToken(c, s, ts[0])
      case Stop(rc) => Stop(rc)
      case Done(s', piece) => WriteTokens(c, s', ts[1..], out + piece)
  }

  function Split(c: Crypto, s: Session): Session {
    var s' := s.(step := s.step + 1);
    if s'.step != Steps(s.pattern) then s'
    else
      var (a, b, _) := Hkdf(c, s.ck, []);
      s'.(sendKey := if s.initiator then a else b, receiveKey := if s.initiator then b else a,
          localStatic := Z, ephemeral := Z, ck := Z, key := Z, psk := Z, ready := true)
  }

  function Finish(c: Crypto, p: Progress): (Session, Reply) {
    match p
    case Stop(rc) => (FAILED, Reply(rc, []))
    case Done(s, out) => (Split(c, s), Reply(OK, out))
  }

  function WriteBody(c: Crypto, s: Session, payload: Bytes): Progress {
    match WriteTokens(c, s, Tokens(s.pattern, s.step), [])
    case Stop(rc) => Stop(rc)
    case Done(s', head) =>
      match EncryptAndHash(c, s', payload)
      case Stop(rc) => Stop(rc)
      case Done(s'', tail) => Done(s'', head + tail)
  }

  function Write(c: Crypto, s: Session, payload: Bytes, capacity: nat): (Session, Reply) {
    if s.failed || s.ready || !ValidStep(s) || !MyTurn(s) then (FAILED, Reply(ERR_INVALID, []))
    else if |payload| > 65535 - 96 || capacity < |payload| + 96 then (FAILED, Reply(ERR_NOMEM, []))
    else Finish(c, WriteBody(c, s, payload))
  }

  /** What is left of a message after a token has taken its share is the progress's output. */
  function ReadToken(c: Crypto, s: Session, t: Token, message: Bytes): Progress {
    match t
    case E =>
      if |message| < 32 then Stop(ERR_INVALID)
      else
        var e := message[..32];
        Done(MixKey(c, MixHash(c, s.(remoteEphemeral := e), e), e), message[32..])
    case S =>
      var take := 32 + TagLength(s);
      if |message| < take then Stop(ERR_INVALID)
      else
        (match DecryptAndHash(c, s, message[..take])
         case Stop(rc) => Stop(rc)
         case Done(s', remote) =>
           if s.hasPin && s.pin != remote then Stop(ERR_AUTH)
           else Done(s'.(remoteStatic := remote), message[take..]))
    case PSK => Done(MixKeyAndHash(c, s, s.psk), message)
    case _ =>
      match MixDh(c, s, t)
      case Stop(rc) => Stop(rc)
      case Done(s', _) => Done(s', message)
  }

  function ReadTokens(c: Crypto, s: Session, ts: seq<Token>, message: Bytes): Progress
    decreases |ts|
  {
    if ts == [] then Done(s, message)
    else
      match ReadToken(c, s, ts[0], message)
      case Stop(rc) => Stop(rc)
      case Done(s', rest) => ReadTokens(c, s', ts[1..], rest)
  }

  function ReadBody(c: Crypto, s: Session, message: Bytes, capacity: nat): Progress {
    match ReadTokens(c, s, Tokens(s.pattern, s.step), message)
    case Stop(rc) => Stop(rc)
    case Done(s', rest) =>
      if |rest| < TagLength(s') then Stop(ERR_AUTH)
      else if capacity < |rest| - TagLength(s') then Stop(ERR_NOMEM)
      else DecryptAndHash(c, s', rest)
  }

  function Read(c: Crypto, s: Session, message: Bytes, capacity: nat): (Session, Reply) {
    if s.failed || s.ready || !ValidStep(s) || MyTurn(s) || |message| > 65535 then (FAILED, Reply(ERR_INVALID, []))
    else Finish(c, ReadBody(c, s, message, capacity))
  }

  // -------------------------------------------------------------------------------------- transport

  /** The frame marker's effect on the flag that says a chunked message is open; None when out of place. */
  function Mark(chunked: bool, frame: Bytes): Option<bool> {
    if |frame| == 0 || frame[0] > 5 then None
    else if frame[0] < 2 then (if chunked then None else Some(false))
    else if frame[0] < 4 then (if chunked then None else Some(true))
    else if !chunked then None
    else Some(frame[0] != 5)
  }

  function Encrypt(c: Crypto, s: Session, frame: Bytes, capacity: nat): (Session, Reply) {
    if !s.ready || s.failed || |frame| > CHUNK_SIZE + 1 then (FAILED, Reply(ERR_INVALID, []))
    else if capacity < |frame| + 16 then (FAILED, Reply(ERR_NOMEM, []))
    else
      match Mark(s.sendChunked, frame)
      case None => (FAILED, Reply(ERR_INVALID, []))
      case Some(chunked) =>
        match Seal(c, s.sendKey, s.sendNonce, [], frame)
        case None => (FAILED, Reply(ERR_AUTH, []))
        case Some(box) => (s.(sendChunked := chunked, sendNonce := s.sendNonce + 1), Reply(OK, box))
  }

  function Decrypt(c: Crypto, s: Session, box: Bytes, capacity: nat): (Session, Reply) {
    if !s.ready || s.failed || |box| < 17 || |box| > 65535 then (FAILED, Reply(ERR_INVALID, []))
    else if capacity < |box| - 16 then (FAILED, Reply(ERR_NOMEM, []))
    else
      match Unseal(c, s.receiveKey, s.receiveNonce, [], box)
      case None => (FAILED, Reply(ERR_AUTH, []))
      case Some(frame) =>
        match Mark(s.receiveChunked, frame)
        case None => (FAILED, Reply(ERR_INVALID, []))
        case Some(chunked) => (s.(receiveChunked := chunked, receiveNonce := s.receiveNonce + 1), Reply(OK, frame))
  }

  // ----------------------------------------------------------------------------------------- set-up

  function ProtocolName(pattern: int): Bytes {
    Ascii(if pattern == XX then "Noise_XXpsk2_25519_AESGCM_SHA256" else "Noise_KKpsk0_25519_AESGCM_SHA256")
  }

  function Ascii(s: string): (b: Bytes)
    ensures |b| == |s|
  {
    seq(|s|, i requires 0 <= i < |s| => (s[i] as int % 256) as uint8)
  }

  /** An absent pin is None. The protocol names are exactly 32 bytes, so they are taken over unhashed. */
  function Init(c: Crypto, pattern: int, initiator: bool, psk: Bytes, prologue: Bytes,
                staticKey: Bytes, ephemeralKey: Bytes, pin: Option<Bytes>): (Session, int)
  {
    if (pattern != XX && pattern != KK) || (pattern == KK && pin.None?) then (FAILED, ERR_INVALID)
    else
      match Public(c, staticKey)
      case None => (FAILED, ERR_INVALID)
      case Some(mine) =>
        var theirs := if pattern == KK && pin.Some? then pin.value else Z;
        var h := ProtocolName(pattern);
        var s := CLEARED.(pattern := pattern, initiator := initiator, psk := psk, localStatic := staticKey,
                          ephemeral := ephemeralKey, localPublic := mine, hasPin := pin.Some?,
                          pin := if pin.Some? then pin.value else Z, remoteStatic := theirs, hash := h, ck := h);
        var s1 := MixHash(c, s, prologue);
        if pattern == KK then
          (MixHash(c, MixHash(c, s1, if initiator then mine else theirs), if initiator then theirs else mine), OK)
        else (s1, OK)
  }
}
