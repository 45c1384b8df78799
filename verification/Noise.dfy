/** The Noise state machine as the library runs it: one object whose operations update its fields in place. */
module Noise {
  import opened Status
  import opened Words
  import opened NoiseSession

  class Party {
    const c: Crypto
    var ck: Bytes
    var hash: Bytes
    var key: Bytes
    var psk: Bytes
    var localStatic: Bytes
    var localPublic: Bytes
    var ephemeral: Bytes
    var remoteStatic: Bytes
    var remoteEphemeral: Bytes
    var pin: Bytes
    var sendKey: Bytes
    var receiveKey: Bytes
    var nonce: uint64
    var sendNonce: uint64
    var receiveNonce: uint64
    var pattern: int
    var initiator: bool
    var step: int
    var hasKey: bool
    var hasPin: bool
    var ready: bool
    var failed: bool
    var sendChunked: bool
    var receiveChunked: bool

    ghost function State(): Session
      reads this
    {
      Session(ck, hash, key, psk, localStatic, localPublic, ephemeral, remoteStatic, remoteEphemeral,
              pin, sendKey, receiveKey, nonce, sendNonce, receiveNonce, pattern, initiator, step,
              hasKey, hasPin, ready, failed, sendChunked, receiveChunked)
    }

    predicate ValidHandshakeStep()
      reads this
    {
      (pattern == XX && 0 <= step < 3) || (pattern == KK && 0 <= step < 2)
    }

    constructor (c: Crypto)
      ensures this.c == c && State() == CLEARED
    {
      this.c := c;
      ck, hash, key, psk := Z, Z, Z, Z;
      localStatic, localPublic, ephemeral, remoteStatic, remoteEphemeral := Z, Z, Z, Z, Z;
      pin, sendKey, receiveKey := Z, Z, Z;
      nonce, sendNonce, receiveNonce := 0, 0, 0;
      pattern, initiator, step := 0, false, 0;
      hasKey, hasPin, ready, failed, sendChunked, receiveChunked := false, false, false, false, false, false;
    }

    method SetChain(h: Bytes)
      modifies this
      ensures State() == old(State()).(ck := h, hash := h)
    {
      ck, hash := h, h;
    }

    method RestartKey(k: Bytes)
      modifies this
      ensures State() == old(State()).(key := k, nonce := 0)
    {
      key, nonce := k, 0;
    }

    method SetTransportKeys(send: Bytes, receive: Bytes)
      modifies this
      ensures State() == old(State()).(sendKey := send, receiveKey := receive)
    {
      sendKey, receiveKey := send, receive;
    }

    method ClearShared()
      modifies this
      ensures State() == old(State()).(psk := Z, pin := Z)
    {
      psk, pin := Z, Z;
    }

    method ClearKeys()
      modifies this
      ensures State() == old(State()).(ck := Z, hash := Z, key := Z, nonce := 0, psk := Z, pin := Z, sendKey := Z, receiveKey := Z)
    {
      SetChain(Z);
      RestartKey(Z);
      SetTransportKeys(Z, Z);
      ClearShared();
    }

    method ClearIdentities()
      modifies this
      ensures State() == old(State()).(localStatic := Z, localPublic := Z, ephemeral := Z, remoteStatic := Z,
                                       remoteEphemeral := Z)
    {
      localStatic, localPublic, ephemeral, remoteStatic, remoteEphemeral := Z, Z, Z, Z, Z;
    }

    method ClearCounters()
      modifies this
      ensures State() == old(State()).(sendNonce := 0, receiveNonce := 0)
    {
      sendNonce, receiveNonce := 0, 0;
    }

    method ClearRole()
      modifies this
      ensures State() == old(State()).(pattern := 0, initiator := false, step := 0)
    {
      SetRole(0, false);
      step := 0;
    }

    method ClearKnown()
      modifies this
      ensures State() == old(State()).(hasKey := false, hasPin := false)
    {
      hasKey, hasPin := false, false;
    }

    method ClearProgress()
      modifies this
      ensures State() == old(State()).(ready := false, failed := false)
    {
      ready, failed := false, false;
    }

    method ClearMarks()
      modifies this
      ensures State() == old(State()).(sendChunked := false, receiveChunked := false)
    {
      sendChunked, receiveChunked := false, false;
    }

    /** Every field of the object back to zero. */
    method Clear()
      modifies this
      ensures State() == CLEARED
    {
      ClearKeys();
      ClearIdentities();
      ClearCounters();
      ClearRole();
      ClearKnown();
      ClearProgress();
      ClearMarks();
    }

    method Fail()
      modifies this
      ensures State() == FAILED
    {
      Clear();
      failed := true;
    }

    method MixHashWith(data: Bytes)
      modifies this
      ensures State() == MixHash(c, old(State()), data)
    {
      hash := c.hash(hash + data);
    }

    method MixKeyWith(data: Bytes, andHash: bool)
      modifies this
      ensures State() == if andHash then MixKeyAndHash(c, old(State()), data) else MixKey(c, old(State()), data)
    {
      var (a, b, d) := Hkdf(c, ck, data);
      ck := a;
      if andHash {
        MixHashWith(b);
        SetKey(d);
      } else {
        SetKey(b);
      }
    }

    method SetKey(k: Bytes)
      modifies this
      ensures State() == old(State()).(key := k, nonce := 0, hasKey := true)
    {
      RestartKey(k);
      hasKey := true;
    }

    /** Appends the sealed, or before any key the plain, data to the hash; advances the nonce only on success. */
    method EncryptHash(data: Bytes) returns (rc: int, out: Bytes)
      modifies this
      ensures match EncryptAndHash(c, old(State()), data)
              case Stop(code) => rc == code && rc != OK
              case Done(s, box) => rc == OK && State() == s && out == box
    {
      rc, out := OK, data;
      if hasKey {
        var box := Seal(c, key, nonce, hash, data);
        if box.None? {
          return ERR_AUTH, [];
        }
        nonce := nonce + 1;
        out := box.value;
      }
      MixHashWith(out);
    }

    method DecryptHash(data: Bytes) returns (rc: int, out: Bytes)
      modifies this
      ensures match DecryptAndHash(c, old(State()), data)
              case Stop(code) => rc == code && rc != OK
              case Done(s, text) => rc == OK && State() == s && out == text
    {
      rc, out := OK, data;
      var next := c.hash(hash + data);
      if hasKey {
        var text := Unseal(c, key, nonce, hash, data);
        if text.None? {
          return ERR_AUTH, [];
        }
        nonce := nonce + 1;
        out := text.value;
      }
      hash := next;
    }

    method Dh(t: Token) returns (rc: int)
      requires t in {EE, ES, SE, SS}
      modifies this
      ensures match MixDh(c, old(State()), t)
              case Stop(code) => rc == code && rc != OK
              case Done(s, _) => rc == OK && State() == s
    {
      var mine, theirs := [], [];
      if t == EE {
        mine, theirs := ephemeral, remoteEphemeral;
      }
      if t == ES {
        mine := if initiator then ephemeral else localStatic;
        theirs := if initiator then remoteStatic else remoteEphemeral;
      }
      if t == SE {
        mine := if initiator then localStatic else ephemeral;
        theirs := if initiator then remoteEphemeral else remoteStatic;
      }
      if t == SS {
        mine, theirs := localStatic, remoteStatic;
      }
      var shared := c.dh(mine, theirs);
      if shared.None? {
        return ERR_AUTH;
      }
      MixKeyWith(shared.value, false);
      rc := OK;
    }

    method WipeHandshake()
      modifies this
      ensures State() == old(State()).(localStatic := Z, ephemeral := Z, ck := Z, key := Z, psk := Z)
    {
      localStatic, ephemeral, ck, key, psk := Z, Z, Z, Z, Z;
    }

    method SetTransport(send: Bytes, receive: Bytes)
      modifies this
      ensures State() == old(State()).(sendKey := send, receiveKey := receive, ready := true)
    {
      SetTransportKeys(send, receive);
      ready := true;
    }

    method SplitKeys()
      modifies this
      ensures State() == Split(c, old(State()))
    {
      step := step + 1;
      if step != (if pattern == XX then 3 else 2) {
        return;
      }
      var (a, b, _) := Hkdf(c, ck, []);
      SetTransport(if initiator then a else b, if initiator then b else a);
      WipeHandshake();
    }

    method SetRole(pattern: int, initiator: bool)
      modifies this
      ensures State() == old(State()).(pattern := pattern, initiator := initiator)
    {
      this.pattern, this.initiator := pattern, initiator;
    }

    method SetOwn(staticKey: Bytes, ephemeralKey: Bytes)
      modifies this
      ensures State() == old(State()).(localStatic := staticKey, ephemeral := ephemeralKey)
    {
      localStatic, ephemeral := staticKey, ephemeralKey;
    }

    method SetSecrets(psk: Bytes, staticKey: Bytes, ephemeralKey: Bytes)
      modifies this
      ensures State() == old(State()).(psk := psk, localStatic := staticKey, ephemeral := ephemeralKey)
    {
      this.psk := psk;
      SetOwn(staticKey, ephemeralKey);
    }

    method SetPin(theirs: Bytes)
      modifies this
      ensures State() == old(State()).(hasPin := true, pin := theirs)
    {
      hasPin, pin := true, theirs;
    }

    method Pin(theirs: Bytes)
      modifies this
      ensures State() == old(State()).(hasPin := true, pin := theirs,
                                       remoteStatic := if pattern == KK then theirs else old(remoteStatic))
    {
      SetPin(theirs);
      if pattern == KK {
        remoteStatic := theirs;
      }
    }

    method InitParty(pattern: int, initiator: bool, psk: Bytes, prologue: Bytes,
                     staticKey: Bytes, ephemeralKey: Bytes, pin: Option<Bytes>) returns (rc: int)
      modifies this
      ensures (State(), rc) == Init(c, pattern, initiator, psk, prologue, staticKey, ephemeralKey, pin)
    {
      Clear();
      if (pattern != XX && pattern != KK) || (pattern == KK && pin.None?) {
        Fail();
        return ERR_INVALID;
      }
      SetRole(pattern, initiator);
      SetSecrets(psk, staticKey, ephemeralKey);
      ghost var given := State();
      var mine := Public(c, staticKey);
      if mine.None? {
        Fail();
        return ERR_INVALID;
      }
      localPublic := mine.value;
      given := given.(localPublic := mine.value);
      assert State() == given;
      if pin.Some? {
        Pin(pin.value);
        given := given.(hasPin := true, pin := pin.value, remoteStatic := if pattern == KK then pin.value else Z);
      }
      StartHash(prologue);
      if pattern == KK {
        MixHashWith(if initiator then localPublic else remoteStatic);
        MixHashWith(if initiator then remoteStatic else localPublic);
      }
      rc := OK;
    }

    method StartHash(prologue: Bytes)
      modifies this
      ensures var h := ProtocolName(old(pattern)); State() == MixHash(c, old(State()).(hash := h, ck := h), prologue)
    {
      SetChain(ProtocolName(pattern));
      MixHashWith(prologue);
    }

    method WriteOneToken(t: Token) returns (rc: int, piece: Bytes)
      modifies this
      ensures match WriteToken(c, old(State()), t)
              case Stop(code) => rc == code && rc != OK
              case Done(s, out) => rc == OK && State() == s && piece == out
    {
      rc, piece := OK, [];
      match t {
        case E =>
          var e := Public(c, ephemeral);
          if e.None? {
            return ERR_AUTH, [];
          }
          piece := e.value;
          MixHashWith(piece);
          MixKeyWith(piece, false);
        case S => rc, piece := EncryptHash(localPublic);
        case PSK => MixKeyWith(psk, true);
        case _ => rc := Dh(t);
      }
    }

    method WriteMessage(payload: Bytes, capacity: nat) returns (rc: int, out: Bytes)
      modifies this
      ensures (State(), Reply(rc, out)) == Write(c, old(State()), payload, capacity)
    {
      hide Public, Seal, EncryptAndHash, WriteToken, Split;
      if failed || ready || !ValidHandshakeStep() || (step % 2 == 0) != initiator {
        Fail();
        return ERR_INVALID, [];
      }
      if |payload| > 65535 - 96 || capacity < |payload| + 96 {
        Fail();
        return ERR_NOMEM, [];
      }
      ghost var s0 := State();
      var tokens := Tokens(pattern, step);
      out := [];
      var i := 0;
      while i < |tokens|
        invariant 0 <= i <= |tokens|
        invariant WriteTokens(c, State(), tokens[i..], out) == WriteTokens(c, s0, tokens, [])
      {
        var piece;
        rc, piece := WriteOneToken(tokens[i]);
        if rc != OK {
          Fail();
          return rc, [];
        }
        out := out + piece;
        i := i + 1;
      }
      var tail;
      rc, tail := EncryptHash(payload);
      if rc != OK {
        Fail();
        return rc, [];
      }
      out := out + tail;
      SplitKeys();
    }

    method AcceptEphemeral(e: Bytes)
      modifies this
      ensures State() == MixKey(c, MixHash(c, old(State()).(remoteEphemeral := e), e), e)
    {
      remoteEphemeral := e;
      MixHashWith(e);
      MixKeyWith(e, false);
    }

    method AcceptStatic(message: Bytes) returns (rc: int, rest: Bytes)
      modifies this
      ensures match ReadToken(c, old(State()), S, message)
              case Stop(code) => rc == code && rc != OK
              case Done(s, out) => rc == OK && State() == s && rest == out
    {
      var take := 32 + if hasKey then 16 else 0;
      if |message| < take {
        return ERR_INVALID, [];
      }
      var remote;
      rc, remote := DecryptHash(message[..take]);
      if rc != OK {
        return rc, [];
      }
      remoteStatic := remote;
      if hasPin && pin != remoteStatic {
        return ERR_AUTH, [];
      }
      rest := message[take..];
    }

    method ReadOneToken(t: Token, message: Bytes) returns (rc: int, rest: Bytes)
      modifies this
      ensures match ReadToken(c, old(State()), t, message)
              case Stop(code) => rc == code && rc != OK
              case Done(s, out) => rc == OK && State() == s && rest == out
    {
      rc, rest := OK, message;
      match t {
        case E =>
          if |message| < 32 {
            return ERR_INVALID, [];
          }
          AcceptEphemeral(message[..32]);
          rest := message[32..];
        case S => rc, rest := AcceptStatic(message);
        case PSK => MixKeyWith(psk, true);
        case _ => rc := Dh(t);
      }
    }

    method ReadMessage(message: Bytes, capacity: nat) returns (rc: int, payload: Bytes)
      modifies this
      ensures (State(), Reply(rc, payload)) == Read(c, old(State()), message, capacity)
    {
      hide DecryptAndHash, Split, ReadToken;
      if failed || ready || !ValidHandshakeStep() || (step % 2 == 0) == initiator || |message| > 65535 {
        Fail();
        return ERR_INVALID, [];
      }
      ghost var s0 := State();
      var tokens := Tokens(pattern, step);
      var rest := message;
      var i := 0;
      while i < |tokens|
        invariant 0 <= i <= |tokens|
        invariant ReadTokens(c, State(), tokens[i..], rest) == ReadTokens(c, s0, tokens, message)
      {
        rc, rest := ReadOneToken(tokens[i], rest);
        if rc != OK {
          Fail();
          return rc, [];
        }
        i := i + 1;
      }
      var tag := if hasKey then 16 else 0;
      if |rest| < tag {
        Fail();
        return ERR_AUTH, [];
      }
      if capacity < |rest| - tag {
        Fail();
        return ERR_NOMEM, [];
      }
      rc, payload := DecryptHash(rest);
      if rc != OK {
        Fail();
        return rc, [];
      }
      SplitKeys();
    }

    /** Seals under the transport key; the counter only moves on success. */
    method SealFrame(frame: Bytes) returns (box: Option<Bytes>)
      modifies this
      ensures box == Seal(c, old(sendKey), old(sendNonce), [], frame)
      ensures State() == if box.Some? then old(State()).(sendNonce := old(sendNonce) + 1) else old(State())
    {
      box := Seal(c, sendKey, sendNonce, [], frame);
      if box.Some? {
        sendNonce := sendNonce + 1;
      }
    }

    method UnsealFrame(box: Bytes) returns (text: Option<Bytes>)
      modifies this
      ensures text == Unseal(c, old(receiveKey), old(receiveNonce), [], box)
      ensures State() == if text.Some? then old(State()).(receiveNonce := old(receiveNonce) + 1) else old(State())
    {
      text := Unseal(c, receiveKey, receiveNonce, [], box);
      if text.Some? {
        receiveNonce := receiveNonce + 1;
      }
    }

    method EncryptFrame(frame: Bytes, capacity: nat) returns (rc: int, out: Bytes)
      modifies this
      ensures (State(), Reply(rc, out)) == Encrypt(c, old(State()), frame, capacity)
    {
      hide Seal;
      if !ready || failed || |frame| > CHUNK_SIZE + 1 {
        Fail();
        return ERR_INVALID, [];
      }
      if capacity < |frame| + 16 {
        Fail();
        return ERR_NOMEM, [];
      }
      var chunked := Mark(sendChunked, frame);
      if chunked.None? {
        Fail();
        return ERR_INVALID, [];
      }
      sendChunked := chunked.value;
      var box := SealFrame(frame);
      if box.None? {
        Fail();
        return ERR_AUTH, [];
      }
      return OK, box.value;
    }

    method DecryptFrame(box: Bytes, capacity: nat) returns (rc: int, frame: Bytes)
      modifies this
      ensures (State(), Reply(rc, frame)) == Decrypt(c, old(State()), box, capacity)
    {
      if !ready || failed || |box| < 17 || |box| > 65535 {
        Fail();
        return ERR_INVALID, [];
      }
      if capacity < |box| - 16 {
        Fail();
        return ERR_NOMEM, [];
      }
      var text := UnsealFrame(box);
      if text.None? {
        Fail();
        return ERR_AUTH, [];
      }
      var chunked := Mark(receiveChunked, text.value);
      if chunked.None? {
        Fail();
        return ERR_INVALID, [];
      }
      receiveChunked := chunked.value;
      return OK, text.value;
    }
  }
}
