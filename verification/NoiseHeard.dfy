/** Every message that a party accepts is the one written out in NoiseTranscript, read with its own keys. */
module NoiseHeard {
  import opened Status
  import opened Words
  import opened NoiseSession
  import opened NoiseLifecycle
  import opened NoiseTranscript

  // -------------------------------------------------------------------------------- what a party reads

  lemma ReadOne(c: Crypto, s: Session, t: Token, ts: seq<Token>, message: Bytes)
    ensures var p := ReadToken(c, s, t, message);
            ReadTokens(c, s, [t] + ts, message) == if p.Stop? then p else ReadTokens(c, p.s, ts, p.out)
  {
    hide ReadToken;
    assert ([t] + ts)[1..] == ts;
  }

  lemma ReadNothing(c: Crypto, s: Session, message: Bytes)
    ensures ReadTokens(c, s, [], message) == Done(s, message)
  {
  }

  /** Moved, the peer's keys being these now. */
  ghost predicate Heard(c: Crypto, s: Session, s': Session, ms: seq<Mix>, n: uint64, e: Bytes, rs: Bytes) {
    Moved(c, s, s', ms, n) && s'.remoteEphemeral == e && s'.remoteStatic == rs
  }

  lemma HearsJoin(c: Crypto, s: Session, s': Session, s'': Session, ms: seq<Mix>, ns: seq<Mix>, n: uint64, m: uint64,
                  e: Bytes, rs: Bytes, e': Bytes, rs': Bytes)
    requires (s' == s && ms == []) || Heard(c, s, s', ms, n, e, rs)
    requires Heard(c, s', s'', ns, m, e', rs')
    ensures Heard(c, s, s'', ms + ns, m, e', rs')
  {
    hide After;
    if s' == s && ms == [] {
      assert ms + ns == ns;
    } else {
      MovesJoin(c, s, s', s'', ms, ns, n, m);
    }
  }

  lemma Chained(c: Crypto, s: Session, s': Session, ms: seq<Mix>, n: uint64, e: Bytes, rs: Bytes)
    requires Heard(c, s, s', ms, n, e, rs)
    ensures ChainOf(s') == After(c, ChainOf(s), ms) && Same(s, s') && s'.nonce == n && s'.hasKey
    ensures s'.remoteEphemeral == e && s'.remoteStatic == rs
  {
    hide After;
  }

  lemma HeardEphemeral(c: Crypto, s: Session, s': Session, ms: seq<Mix>, n: uint64, rs: Bytes, ts: seq<Token>, message: Bytes)
    requires (s' == s && ms == [] && rs == s.remoteStatic) || Heard(c, s, s', ms, n, s'.remoteEphemeral, rs)
    ensures var p := ReadTokens(c, s', [E] + ts, message);
            if |message| < 32 then p.Stop?
            else
              var e := message[..32];
              var s'' := MixKey(c, MixHash(c, s'.(remoteEphemeral := e), e), e);
              p == ReadTokens(c, s'', ts, message[32..]) && Heard(c, s, s'', ms + [Hash(e), Key(e)], 0, e, rs)
  {
    hide After, ReadTokens;
    ReadOne(c, s', E, ts, message);
    if |message| >= 32 {
      var e := message[..32];
      var s'' := MixKey(c, MixHash(c, s'.(remoteEphemeral := e), e), e);
      EphemeralMoves(c, s'.(remoteEphemeral := e), e);
      HearsJoin(c, s, s', s'', ms, [Hash(e), Key(e)], n, 0, s'.remoteEphemeral, rs, e, rs);
    }
  }

  lemma HeardMix(c: Crypto, s: Session, s': Session, ms: seq<Mix>, n: uint64, e: Bytes, rs: Bytes,
                 t: Token, ts: seq<Token>, message: Bytes)
    requires Heard(c, s, s', ms, n, e, rs) && t in {EE, ES, SE, SS}
    ensures var p := ReadTokens(c, s', [t] + ts, message);
            var x := c.dh(DhPair(s', t).0, DhPair(s', t).1);
            if x.None? then p.Stop?
            else
              var s'' := MixKey(c, s', x.value);
              p == ReadTokens(c, s'', ts, message) && Heard(c, s, s'', ms + [Key(x.value)], 0, e, rs)
  {
    hide After, ReadTokens, DhPair;
    ReadOne(c, s', t, ts, message);
    var x := c.dh(DhPair(s', t).0, DhPair(s', t).1);
    if x.Some? {
      KeyMoves(c, s', x.value);
      HearsJoin(c, s, s', MixKey(c, s', x.value), ms, [Key(x.value)], n, 0, e, rs, e, rs);
    }
  }

  lemma HeardPsk(c: Crypto, s: Session, ts: seq<Token>, message: Bytes, s': Session, ms: seq<Mix>, n: uint64, e: Bytes, rs: Bytes)
    requires (s' == s && ms == [] && e == s.remoteEphemeral && rs == s.remoteStatic) || Heard(c, s, s', ms, n, e, rs)
    ensures var s'' := MixKeyAndHash(c, s', s'.psk);
            && ReadTokens(c, s', [PSK] + ts, message) == ReadTokens(c, s'', ts, message)
            && Heard(c, s, s'', ms + [Both(s.psk)], 0, e, rs)
  {
    hide After, ReadTokens;
    ReadOne(c, s', PSK, ts, message);
    BothMoves(c, s', s'.psk);
    HearsJoin(c, s, s', MixKeyAndHash(c, s', s'.psk), ms, [Both(s.psk)], n, 0, e, rs, e, rs);
  }

  /** A static key that opens is the one that was sealed, and the pinned one if there is a pin. */
  lemma HeardStatic(c: Crypto, s: Session, s': Session, ms: seq<Mix>, n: uint64, e: Bytes, rs: Bytes,
                    ts: seq<Token>, message: Bytes)
    requires Authentic(c) && Heard(c, s, s', ms, n, e, rs) && n <= 1
    ensures var p := ReadTokens(c, s', [S] + ts, message);
            var q := ReadToken(c, s', S, message);
            var a := After(c, ChainOf(s), ms);
            if q.Stop? then p == q
            else
              var theirs := q.s.remoteStatic;
              var sealed := Box(c, a.key, n as uint8, a.hash, theirs);
              && p == ReadTokens(c, q.s, ts, q.out) && message == sealed + q.out && |sealed| == 48 && (s.hasPin ==> theirs == s.pin)
              && Heard(c, s, q.s, ms + [Hash(sealed)], n + 1, e, theirs)
  {
    hide After, ReadTokens, Box, Authentic;
    ReadOne(c, s', S, ts, message);
    var q := ReadToken(c, s', S, message);
    if q.Done? {
      StaticOpens(c, s', message);
      var d := message[..48];
      HearsJoin(c, s, s', q.s, ms, [Hash(d)], n, n + 1, e, rs, e, q.s.remoteStatic);
    }
  }

  lemma StaticOpens(c: Crypto, s: Session, message: Bytes)
    requires Authentic(c) && s.hasKey && s.nonce <= 1 && ReadToken(c, s, S, message).Done?
    ensures var q := ReadToken(c, s, S, message); var theirs := q.s.remoteStatic;
            && |message| >= 48 && message[..48] == Box(c, s.key, s.nonce as uint8, s.hash, theirs) && q.out == message[48..]
            && (s.hasPin ==> theirs == s.pin)
            && Heard(c, s, q.s, [Hash(message[..48])], s.nonce + 1, s.remoteEphemeral, theirs)
  {
    hide After, Box, Authentic;
    Decrypts(c, s, message[..48]);
  }

  lemma {:induction false} StopsAreErrors(c: Crypto, s: Session, ts: seq<Token>, message: Bytes)
    ensures var p := ReadTokens(c, s, ts, message); p.Stop? ==> p.rc != OK
    decreases |ts|
  {
    if ts != [] {
      StopIsError(c, s, ts[0], message);
      var p := ReadToken(c, s, ts[0], message);
      if p.Done? {
        StopsAreErrors(c, p.s, ts[1..], p.out);
      }
    }
  }

  lemma StopIsError(c: Crypto, s: Session, t: Token, message: Bytes)
    ensures var p := ReadToken(c, s, t, message); p.Stop? ==> p.rc != OK
  {
  }

  /** The payload opens under the key the tokens have left. */
  lemma HeardBody(c: Crypto, s: Session, message: Bytes, capacity: nat, ms: seq<Mix>, e: Bytes, rs: Bytes)
    requires Authentic(c)
    requires var p := ReadTokens(c, s, Tokens(s.pattern, s.step), message); p.Done? ==> Heard(c, s, p.s, ms, 0, e, rs)
    ensures var p, q := ReadTokens(c, s, Tokens(s.pattern, s.step), message), ReadBody(c, s, message, capacity);
            && (q.Stop? ==> q.rc != OK)
            && (q.Done? ==> p.Done? && var a := After(c, ChainOf(s), ms); var box := Box(c, a.key, 0, a.hash, q.out);
                                       p.out == box && Heard(c, s, q.s, ms + [Hash(box)], 1, e, rs))
  {
    hide Authentic, ReadTokens, DecryptAndHash, Tokens, After, Box;
    StopsAreErrors(c, s, Tokens(s.pattern, s.step), message);
    var p := ReadTokens(c, s, Tokens(s.pattern, s.step), message);
    if p.Done? {
      Decrypts(c, p.s, p.out);
      var q := DecryptAndHash(c, p.s, p.out);
      if q.Done? {
        HearsJoin(c, s, p.s, q.s, ms, [Hash(p.out)], 0, 1, e, rs, e, rs);
      }
    }
  }

  lemma ReadOn(c: Crypto, s: Session, message: Bytes, capacity: nat)
    requires ValidStep(s) && s.step + 1 != Steps(s.pattern)
    requires var q := ReadBody(c, s, message, capacity); (q.Done? ==> Same(s, q.s) && q.s.hasKey) && (q.Stop? ==> q.rc != OK)
    ensures var (w, r) := Read(c, s, message, capacity); var q := ReadBody(c, s, message, capacity);
            r.rc == OK ==> && q.Done? && !MyTurn(s) && r.bytes == q.out && ChainOf(w) == ChainOf(q.s) && w.nonce == q.s.nonce
                           && Continues(s, w)
                           && w.remoteStatic == q.s.remoteStatic && w.remoteEphemeral == q.s.remoteEphemeral
  {
    hide ReadBody;
  }

  lemma ReadLast(c: Crypto, s: Session, message: Bytes, capacity: nat)
    requires ValidStep(s) && s.step + 1 == Steps(s.pattern)
    requires var q := ReadBody(c, s, message, capacity); (q.Done? ==> Same(s, q.s)) && (q.Stop? ==> q.rc != OK)
    ensures var (w, r) := Read(c, s, message, capacity); var q := ReadBody(c, s, message, capacity);
            r.rc == OK ==> && q.Done? && !MyTurn(s) && r.bytes == q.out && Keyed(c, ChainOf(q.s), s.initiator, w)
                           && w.remoteStatic == q.s.remoteStatic && w.remoteEphemeral == q.s.remoteEphemeral
  {
    hide ReadBody;
    var q := ReadBody(c, s, message, capacity);
    if q.Done? {
      Expanded(c, q.s.ck, []);
    }
  }

  lemma HeardXXFirst(c: Crypto, s: Session, message: Bytes)
    ensures var p := ReadTokens(c, s, [E], message);
            p.Done? ==> |message| >= 32 && var e := message[..32];
                        p.out == message[32..] && Heard(c, s, p.s, [Hash(e), Key(e)], 0, e, s.remoteStatic)
  {
    hide After, ReadTokens, Heard, MixKey, MixHash;
    assert [E] == [E] + [];
    HeardEphemeral(c, s, s, [], 0, s.remoteStatic, [], message);
    if |message| >= 32 {
      var e := message[..32];
      ReadNothing(c, MixKey(c, MixHash(c, s.(remoteEphemeral := e), e), e), message[32..]);
      assert [] + [Hash(e), Key(e)] == [Hash(e), Key(e)];
    }
  }

  lemma HeardXXSecond(c: Crypto, s: Session, message: Bytes)
    requires Authentic(c) && s.initiator
    ensures var p := ReadTokens(c, s, [E, EE, S, ES, PSK], message);
            p.Done? ==>
              && |message| >= 32
              && var e, rs := message[..32], p.s.remoteStatic;
                 var ee, es := c.dh(s.ephemeral, e), c.dh(s.ephemeral, rs);
                 && ee.Some? && es.Some? && (s.hasPin ==> rs == s.pin)
                 && var a := After(c, ChainOf(s), [Hash(e), Key(e), Key(ee.value)]);
                    var sealed := Box(c, a.key, 0, a.hash, rs);
                    && message == e + sealed + p.out && |sealed| == 48
                    && Heard(c, s, p.s, [Hash(e), Key(e), Key(ee.value), Hash(sealed), Key(es.value), Both(s.psk)], 0, e, rs)
  {
    hide Authentic, After, ReadTokens, Heard, ReadToken, MixKey, MixHash, Box;
    assert [E, EE, S, ES, PSK] == [E] + [EE, S, ES, PSK];
    HeardEphemeral(c, s, s, [], 0, s.remoteStatic, [EE, S, ES, PSK], message);
    if |message| >= 32 {
      var e, rest := message[..32], message[32..];
      var h, k := Hash(e), Key(e);
      var s1 := MixKey(c, MixHash(c, s.(remoteEphemeral := e), e), e);
      assert [EE, S, ES, PSK] == [EE] + [S, ES, PSK] && [] + [h, k] == [h, k];
      HeardMix(c, s, s1, [h, k], 0, e, s.remoteStatic, EE, [S, ES, PSK], rest);
      Chained(c, s, s1, [h, k], 0, e, s.remoteStatic);
      var ee := c.dh(s.ephemeral, e);
      if ee.Some? {
        var s2 := MixKey(c, s1, ee.value);
        var front := [h, k, Key(ee.value)];
        assert [h, k] + [Key(ee.value)] == front;
        HeardStaticEsPsk(c, s, s2, front, e, rest);
        var p := ReadTokens(c, s2, [S, ES, PSK], rest);
        if p.Done? {
          var a := After(c, ChainOf(s), front);
          var sealed, es := Box(c, a.key, 0, a.hash, p.s.remoteStatic), c.dh(s.ephemeral, p.s.remoteStatic);
          assert front + [Hash(sealed), Key(es.value), Both(s.psk)]
              == [h, k, Key(ee.value), Hash(sealed), Key(es.value), Both(s.psk)];
          ThreeParts(message, e, sealed, p.out);
        }
      }
    }
  }

  lemma ThreeParts(message: Bytes, e: Bytes, sealed: Bytes, rest: Bytes)
    requires |message| >= 32 && e == message[..32] && message[32..] == sealed + rest
    ensures message == e + sealed + rest
  {
  }

  lemma HeardStaticEsPsk(c: Crypto, s: Session, s': Session, ms: seq<Mix>, e: Bytes, message: Bytes)
    requires Authentic(c) && s.initiator && Heard(c, s, s', ms, 0, e, s.remoteStatic)
    ensures var p := ReadTokens(c, s', [S, ES, PSK], message);
            p.Done? ==>
              var rs, a := p.s.remoteStatic, After(c, ChainOf(s), ms);
              var es, sealed := c.dh(s.ephemeral, rs), Box(c, a.key, 0, a.hash, rs);
              && es.Some? && (s.hasPin ==> rs == s.pin) && message == sealed + p.out && |sealed| == 48
              && Heard(c, s, p.s, ms + [Hash(sealed), Key(es.value), Both(s.psk)], 0, e, rs)
  {
    hide Authentic, After, ReadTokens, Heard, ReadToken, Box;
    assert [S, ES, PSK] == [S] + [ES, PSK];
    HeardStatic(c, s, s', ms, 0, e, s.remoteStatic, [ES, PSK], message);
    var q := ReadToken(c, s', S, message);
    if q.Done? {
      var rs, a := q.s.remoteStatic, After(c, ChainOf(s), ms);
      var es, m := c.dh(s.ephemeral, rs), Hash(Box(c, a.key, 0, a.hash, rs));
      HeardEsPsk(c, s, q.s, ms + [m], e, rs, q.out);
      if es.Some? {
        assert ms + [m] + [Key(es.value), Both(s.psk)] == ms + [m, Key(es.value), Both(s.psk)];
      }
    }
  }

  lemma HeardEsPsk(c: Crypto, s: Session, s': Session, ms: seq<Mix>, e: Bytes, rs: Bytes, message: Bytes)
    requires Heard(c, s, s', ms, 1, e, rs) && s.initiator
    ensures var p := ReadTokens(c, s', [ES, PSK], message); var es := c.dh(s.ephemeral, rs);
            if es.None? then p.Stop?
            else p.Done? && p.out == message && p.s.remoteStatic == rs
                 && Heard(c, s, p.s, ms + [Key(es.value), Both(s.psk)], 0, e, rs)
  {
    hide After, ReadTokens, Heard, MixKey, MixKeyAndHash;
    assert [ES, PSK] == [ES] + [PSK] && [PSK] == [PSK] + [];
    Chained(c, s, s', ms, 1, e, rs);
    HeardMix(c, s, s', ms, 1, e, rs, ES, [PSK], message);
    var es := c.dh(s.ephemeral, rs);
    if es.Some? {
      var s'' := MixKey(c, s', es.value);
      HeardPsk(c, s, [], message, s'', ms + [Key(es.value)], 0, e, rs);
      var t := MixKeyAndHash(c, s'', s''.psk);
      ReadNothing(c, t, message);
      assert ms + [Key(es.value)] + [Both(s.psk)] == ms + [Key(es.value), Both(s.psk)];
      Chained(c, s, t, ms + [Key(es.value), Both(s.psk)], 0, e, rs);
    }
  }

  lemma ReadXXFirst(c: Crypto, s: Session, message: Bytes, capacity: nat)
    requires Authentic(c) && s.pattern == XX && s.step == 0
    ensures var (w, r) := Read(c, s, message, capacity);
            r.rc == OK ==> && !s.initiator && |message| >= 32 && w.remoteEphemeral == message[..32] && w.nonce == 1 && Continues(s, w)
                           && XXFirst(c, ChainOf(s), message[..32], r.bytes, message, ChainOf(w))
  {
    hide Lawful, Authentic, ReadTokens, ReadBody, Read, After, Box, Heard;
    HeardXXFirst(c, s, message);
    var e := if |message| >= 32 then message[..32] else [];
    var ms := [Hash(e), Key(e)];
    HeardBody(c, s, message, capacity, ms, e, s.remoteStatic);
    var q := ReadBody(c, s, message, capacity);
    if q.Done? {
      var x := ChainOf(s);
      var a := After(c, x, ms);
      var box := Box(c, a.key, 0, a.hash, q.out);
      AfterBoth(c, x, ms, [Hash(box)]);
      Chained(c, s, q.s, ms + [Hash(box)], 1, e, s.remoteStatic);
      assert message == e + message[32..];
    }
    ReadOn(c, s, message, capacity);
  }

  lemma SealedKey(c: Crypto, x: Chain, n: uint8, key: Bytes)
    ensures Lawful(c) && |Box(c, x.key, n, x.hash, key)| == 48 ==> |key| == 32
  {
  }

  lemma ReadXXSecond(c: Crypto, s: Session, message: Bytes, capacity: nat)
    requires Authentic(c) && s.pattern == XX && s.step == 1
    ensures var (w, r) := Read(c, s, message, capacity);
            r.rc == OK ==>
              && s.initiator && |message| >= 32
              && var e, rs := message[..32], w.remoteStatic;
                 var ee, es := c.dh(s.ephemeral, e), c.dh(s.ephemeral, rs);
                 && ee.Some? && es.Some? && w.remoteEphemeral == e && w.nonce == 1 && (s.hasPin ==> rs == s.pin)
                 && XXSecond(c, ChainOf(s), s.psk, e, ee.value, rs, es.value, r.bytes, message, ChainOf(w))
                 && (Lawful(c) ==> |rs| == 32) && Continues(s, w)
  {
    hide Lawful, Authentic, ReadTokens, ReadBody, Read, After, Box, Heard;
    var p, q := ReadTokens(c, s, [E, EE, S, ES, PSK], message), ReadBody(c, s, message, capacity);
    if s.initiator {
      HeardXXSecond(c, s, message);
      if p.Done? {
        var e, rs := message[..32], p.s.remoteStatic;
        var ee, es := c.dh(s.ephemeral, e).value, c.dh(s.ephemeral, rs).value;
        var x, front := ChainOf(s), [Hash(e), Key(e), Key(ee)];
        var a := After(c, x, front);
        var back := [Hash(Box(c, a.key, 0, a.hash, rs)), Key(es), Both(s.psk)];
        assert front + back == [Hash(e), Key(e), Key(ee), back[0], Key(es), Both(s.psk)];
        HeardBody(c, s, message, capacity, front + back, e, rs);
        SealedKey(c, a, 0, rs);
        AfterBoth(c, x, front, back);
        if q.Done? {
          var b := After(c, a, back);
          var box := Box(c, b.key, 0, b.hash, q.out);
          AfterBoth(c, x, front + back, [Hash(box)]);
          Chained(c, s, q.s, front + back + [Hash(box)], 1, e, rs);
        }
      } else {
        HeardBody(c, s, message, capacity, [], [], []);
      }
      ReadOn(c, s, message, capacity);
    } else {
      ReadOutOfTurn(c, s, message, capacity);
    }
  }

  lemma ReadOutOfTurn(c: Crypto, s: Session, message: Bytes, capacity: nat)
    requires MyTurn(s)
    ensures Read(c, s, message, capacity).1.rc == ERR_INVALID
  {
  }

  lemma HeardXXThird(c: Crypto, s: Session, message: Bytes)
    requires Authentic(c) && !s.initiator && s.hasKey && s.nonce == 1
    ensures var p := ReadTokens(c, s, [S, SE], message);
            p.Done? ==>
              var rs, se := p.s.remoteStatic, c.dh(s.ephemeral, p.s.remoteStatic);
              var sealed := Box(c, s.key, 1, s.hash, rs);
              && se.Some? && (s.hasPin ==> rs == s.pin) && message == sealed + p.out && |sealed| == 48
              && Heard(c, s, p.s, [Hash(sealed), Key(se.value)], 0, s.remoteEphemeral, rs)
  {
    hide Authentic, After, ReadTokens, Heard, ReadToken, MixKey, Box;
    assert [S, SE] == [S] + [SE] && [SE] == [SE] + [];
    HearsNothing(c, s);
    HeardStatic(c, s, s, [], 1, s.remoteEphemeral, s.remoteStatic, [SE], message);
    var q := ReadToken(c, s, S, message);
    if q.Done? {
      var rs := q.s.remoteStatic;
      var m := Hash(Box(c, s.key, 1, s.hash, rs));
      assert [] + [m] == [m];
      Chained(c, s, q.s, [m], 2, s.remoteEphemeral, rs);
      HeardMix(c, s, q.s, [m], 2, s.remoteEphemeral, rs, SE, [], q.out);
      var se := c.dh(s.ephemeral, rs);
      if se.Some? {
        var t := MixKey(c, q.s, se.value);
        ReadNothing(c, t, q.out);
        assert [m] + [Key(se.value)] == [m, Key(se.value)];
        Chained(c, s, t, [m, Key(se.value)], 0, s.remoteEphemeral, rs);
      }
    }
  }

  lemma HearsNothing(c: Crypto, s: Session)
    requires s.hasKey
    ensures Heard(c, s, s, [], s.nonce, s.remoteEphemeral, s.remoteStatic) && After(c, ChainOf(s), []) == ChainOf(s)
  {
  }

  lemma ReadXXThird(c: Crypto, s: Session, message: Bytes, capacity: nat)
    requires Authentic(c) && s.pattern == XX && s.step == 2 && s.hasKey && s.nonce == 1
    ensures var (w, r) := Read(c, s, message, capacity); var rs := w.remoteStatic; var se := c.dh(s.ephemeral, rs);
            r.rc == OK ==> && !s.initiator && se.Some? && (s.hasPin ==> rs == s.pin) && (Lawful(c) ==> |rs| == 32)
                           && exists y :: XXThird(c, ChainOf(s), rs, se.value, r.bytes, message, y) && Keyed(c, y, false, w)
  {
    hide Lawful, Authentic, ReadTokens, ReadBody, Read, After, Box, Heard, Keyed;
    var p, q := ReadTokens(c, s, [S, SE], message), ReadBody(c, s, message, capacity);
    if s.initiator {
      ReadOutOfTurn(c, s, message, capacity);
    } else {
      HeardXXThird(c, s, message);
      var rs := if p.Done? then p.s.remoteStatic else [];
      var se := c.dh(s.ephemeral, rs);
      var ms := if p.Done? then [Hash(Box(c, s.key, 1, s.hash, rs)), Key(se.value)] else [];
      HeardBody(c, s, message, capacity, ms, s.remoteEphemeral, rs);
      SealedKey(c, ChainOf(s), 1, rs);
      if q.Done? {
        EndsWith(c, s, q.s, ms, Box(c, After(c, ChainOf(s), ms).key, 0, After(c, ChainOf(s), ms).hash, q.out), s.remoteEphemeral, rs);
      }
      ReadLast(c, s, message, capacity);
      var (w, r) := Read(c, s, message, capacity);
      if r.rc == OK {
        assert XXThird(c, ChainOf(s), rs, se.value, r.bytes, message, ChainOf(q.s)) && Keyed(c, ChainOf(q.s), false, w);
      }
    }
  }

  /** The payload's box is the last thing mixed in. */
  lemma EndsWith(c: Crypto, s: Session, s': Session, ms: seq<Mix>, box: Bytes, e: Bytes, rs: Bytes)
    requires Heard(c, s, s', ms + [Hash(box)], 1, e, rs)
    ensures ChainOf(s') == After(c, After(c, ChainOf(s), ms), [Hash(box)]) && Same(s, s') && s'.nonce == 1 && s'.hasKey
    ensures s'.remoteEphemeral == e && s'.remoteStatic == rs
  {
    hide After;
    AfterBoth(c, ChainOf(s), ms, [Hash(box)]);
  }

  lemma HeardKKFirst(c: Crypto, s: Session, message: Bytes)
    requires !s.initiator
    ensures var p := ReadTokens(c, s, [PSK, E, ES, SS], message);
            p.Done? ==>
              && |message| >= 32
              && var e := message[..32];
                 var es, ss := c.dh(s.localStatic, e), c.dh(s.localStatic, s.remoteStatic);
                 && es.Some? && ss.Some? && p.out == message[32..]
                 && Heard(c, s, p.s, [Both(s.psk), Hash(e), Key(e), Key(es.value), Key(ss.value)], 0, e, s.remoteStatic)
  {
    hide After, ReadTokens, Heard, MixKey, MixHash, MixKeyAndHash;
    assert [PSK, E, ES, SS] == [PSK] + [E, ES, SS] && [E, ES, SS] == [E] + [ES, SS];
    var rs, m := s.remoteStatic, Both(s.psk);
    HeardPsk(c, s, [E, ES, SS], message, s, [], 0, s.remoteEphemeral, rs);
    var s0 := MixKeyAndHash(c, s, s.psk);
    assert [] + [m] == [m];
    Chained(c, s, s0, [m], 0, s.remoteEphemeral, rs);
    HeardEphemeral(c, s, s0, [m], 0, rs, [ES, SS], message);
    if |message| >= 32 {
      var e := message[..32];
      var es, ss := c.dh(s.localStatic, e), c.dh(s.localStatic, rs);
      var s1 := MixKey(c, MixHash(c, s0.(remoteEphemeral := e), e), e);
      assert [ES, SS] == [ES] + [SS] && [SS] == [SS] + [] && [m] + [Hash(e), Key(e)] == [m, Hash(e), Key(e)];
      Chained(c, s, s1, [m, Hash(e), Key(e)], 0, e, rs);
      HeardMix(c, s, s1, [m, Hash(e), Key(e)], 0, e, rs, ES, [SS], message[32..]);
      if es.Some? {
        var s2 := MixKey(c, s1, es.value);
        var ms := [m, Hash(e), Key(e), Key(es.value)];
        assert [m, Hash(e), Key(e)] + [Key(es.value)] == ms;
        Chained(c, s, s2, ms, 0, e, rs);
        HeardMix(c, s, s2, ms, 0, e, rs, SS, [], message[32..]);
        if ss.Some? {
          ReadNothing(c, MixKey(c, s2, ss.value), message[32..]);
          assert ms + [Key(ss.value)] == [m, Hash(e), Key(e), Key(es.value), Key(ss.value)];
        }
      }
    }
  }

  lemma ReadKKFirst(c: Crypto, s: Session, message: Bytes, capacity: nat)
    requires Authentic(c) && s.pattern == KK && s.step == 0
    ensures var (w, r) := Read(c, s, message, capacity);
            r.rc == OK ==>
              && !s.initiator && |message| >= 32
              && var e := message[..32];
                 var es, ss := c.dh(s.localStatic, e), c.dh(s.localStatic, s.remoteStatic);
                 && es.Some? && ss.Some? && w.remoteEphemeral == e && w.remoteStatic == s.remoteStatic && w.nonce == 1
                 && Continues(s, w)
                 && KKFirst(c, ChainOf(s), s.psk, e, es.value, ss.value, r.bytes, message, ChainOf(w))
  {
    hide Lawful, Authentic, ReadTokens, ReadBody, Read, After, Box, Heard;
    if s.initiator {
      ReadOutOfTurn(c, s, message, capacity);
    } else {
      HeardKKFirst(c, s, message);
      var p, q := ReadTokens(c, s, [PSK, E, ES, SS], message), ReadBody(c, s, message, capacity);
      var e := if |message| >= 32 then message[..32] else [];
      var es, ss := c.dh(s.localStatic, e), c.dh(s.localStatic, s.remoteStatic);
      var ms := if p.Done? then [Both(s.psk), Hash(e), Key(e), Key(es.value), Key(ss.value)] else [];
      HeardBody(c, s, message, capacity, ms, e, s.remoteStatic);
      if q.Done? {
        var a := After(c, ChainOf(s), ms);
        EndsWith(c, s, q.s, ms, Box(c, a.key, 0, a.hash, q.out), e, s.remoteStatic);
        assert message == e + message[32..];
      }
      ReadOn(c, s, message, capacity);
    }
  }

  lemma HeardKKSecond(c: Crypto, s: Session, message: Bytes)
    requires s.initiator
    ensures var p := ReadTokens(c, s, [E, EE, SE], message);
            p.Done? ==>
              && |message| >= 32
              && var e := message[..32];
                 var ee, se := c.dh(s.ephemeral, e), c.dh(s.localStatic, e);
                 && ee.Some? && se.Some? && p.out == message[32..]
                 && Heard(c, s, p.s, [Hash(e), Key(e), Key(ee.value), Key(se.value)], 0, e, s.remoteStatic)
  {
    hide After, ReadTokens, Heard, MixKey, MixHash;
    assert [E, EE, SE] == [E] + [EE, SE];
    var rs := s.remoteStatic;
    HeardEphemeral(c, s, s, [], 0, rs, [EE, SE], message);
    if |message| >= 32 {
      var e := message[..32];
      var ee, se := c.dh(s.ephemeral, e), c.dh(s.localStatic, e);
      var s1 := MixKey(c, MixHash(c, s.(remoteEphemeral := e), e), e);
      assert [EE, SE] == [EE] + [SE] && [SE] == [SE] + [] && [] + [Hash(e), Key(e)] == [Hash(e), Key(e)];
      Chained(c, s, s1, [Hash(e), Key(e)], 0, e, rs);
      HeardMix(c, s, s1, [Hash(e), Key(e)], 0, e, rs, EE, [SE], message[32..]);
      if ee.Some? {
        var s2 := MixKey(c, s1, ee.value);
        var ms := [Hash(e), Key(e), Key(ee.value)];
        assert [Hash(e), Key(e)] + [Key(ee.value)] == ms;
        Chained(c, s, s2, ms, 0, e, rs);
        HeardMix(c, s, s2, ms, 0, e, rs, SE, [], message[32..]);
        if se.Some? {
          ReadNothing(c, MixKey(c, s2, se.value), message[32..]);
          assert ms + [Key(se.value)] == [Hash(e), Key(e), Key(ee.value), Key(se.value)];
        }
      }
    }
  }

  lemma ReadKKSecond(c: Crypto, s: Session, message: Bytes, capacity: nat)
    requires Authentic(c) && s.pattern == KK && s.step == 1
    ensures var (w, r) := Read(c, s, message, capacity);
            r.rc == OK ==>
              && s.initiator && |message| >= 32
              && var e := message[..32];
                 var ee, se := c.dh(s.ephemeral, e), c.dh(s.localStatic, e);
                 && ee.Some? && se.Some?
                 && exists y :: KKSecond(c, ChainOf(s), e, ee.value, se.value, r.bytes, message, y) && Keyed(c, y, true, w)
  {
    hide Lawful, Authentic, ReadTokens, ReadBody, Read, After, Box, Heard, Keyed;
    if !s.initiator {
      ReadOutOfTurn(c, s, message, capacity);
    } else {
      HeardKKSecond(c, s, message);
      var p, q := ReadTokens(c, s, [E, EE, SE], message), ReadBody(c, s, message, capacity);
      var e := if |message| >= 32 then message[..32] else [];
      var ee, se := c.dh(s.ephemeral, e), c.dh(s.localStatic, e);
      var ms := if p.Done? then [Hash(e), Key(e), Key(ee.value), Key(se.value)] else [];
      HeardBody(c, s, message, capacity, ms, e, s.remoteStatic);
      if q.Done? {
        var a := After(c, ChainOf(s), ms);
        EndsWith(c, s, q.s, ms, Box(c, a.key, 0, a.hash, q.out), e, s.remoteStatic);
        assert message == e + message[32..];
      }
      ReadLast(c, s, message, capacity);
      var (w, r) := Read(c, s, message, capacity);
      if r.rc == OK {
        assert KKSecond(c, ChainOf(s), e, ee.value, se.value, r.bytes, message, ChainOf(q.s)) && Keyed(c, ChainOf(q.s), true, w);
      }
    }
  }
}
