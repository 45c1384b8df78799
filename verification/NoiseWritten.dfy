/** Every message that a party writes is the one written out in NoiseTranscript, and its code says why there is none. */
module NoiseWritten {
  import opened Status
  import opened Words
  import opened NoiseSession
  import opened NoiseTranscript

  // ------------------------------------------------------------------------------- what a party writes

  /** Moved, with the peer's keys untouched. */
  ghost predicate Wrote(c: Crypto, s: Session, s': Session, ms: seq<Mix>, nonce: uint64) {
    Moved(c, s, s', ms, nonce) && s'.remoteStatic == s.remoteStatic && s'.remoteEphemeral == s.remoteEphemeral
  }

  lemma WroteOne(c: Crypto, s: Session, t: Token, ts: seq<Token>, out: Bytes)
    ensures var p := WriteToken(c, s, t);
            WriteTokens(c, s, [t] + ts, out) == if p.Stop? then p else WriteTokens(c, p.s, ts, out + p.out)
  {
    hide WriteToken;
    assert ([t] + ts)[1..] == ts;
  }

  /** Nothing done yet, or some mixes. */
  ghost predicate Begun(c: Crypto, s: Session, s': Session, ms: seq<Mix>) {
    (s' == s && ms == []) || Wrote(c, s, s', ms, s'.nonce)
  }

  lemma WritesJoin(c: Crypto, s: Session, s': Session, s'': Session, ms: seq<Mix>, ns: seq<Mix>, n: uint64)
    requires Begun(c, s, s', ms) && Wrote(c, s', s'', ns, n)
    ensures Wrote(c, s, s'', ms + ns, n)
  {
    hide After;
    if s' == s && ms == [] {
      assert ms + ns == ns;
    } else {
      MovesJoin(c, s, s', s'', ms, ns, s'.nonce, n);
    }
  }

  lemma WroteEphemeral(c: Crypto, s: Session, s': Session, ms: seq<Mix>, ts: seq<Token>, out: Bytes)
    requires Begun(c, s, s', ms)
    ensures var p := WriteTokens(c, s', [E] + ts, out);
            var e := Public(c, s.ephemeral);
            if e.None? then p == Stop(ERR_AUTH)
            else
              var s'' := MixKey(c, MixHash(c, s', e.value), e.value);
              p == WriteTokens(c, s'', ts, out + e.value) && Wrote(c, s, s'', ms + [Hash(e.value), Key(e.value)], 0)
  {
    hide After, WriteTokens;
    WroteOne(c, s', E, ts, out);
    var e := Public(c, s.ephemeral);
    if e.Some? {
      EphemeralMoves(c, s', e.value);
      WritesJoin(c, s, s', MixKey(c, MixHash(c, s', e.value), e.value), ms, [Hash(e.value), Key(e.value)], 0);
    }
  }

  lemma WroteMix(c: Crypto, s: Session, s': Session, ms: seq<Mix>, n: uint64, t: Token, ts: seq<Token>, out: Bytes)
    requires Wrote(c, s, s', ms, n) && t in {EE, ES, SE, SS}
    ensures var p := WriteTokens(c, s', [t] + ts, out);
            var x := c.dh(DhPair(s, t).0, DhPair(s, t).1);
            if x.None? then p == Stop(ERR_AUTH)
            else
              var s'' := MixKey(c, s', x.value);
              p == WriteTokens(c, s'', ts, out) && Wrote(c, s, s'', ms + [Key(x.value)], 0)
  {
    hide After, WriteTokens;
    WroteOne(c, s', t, ts, out);
    var x := c.dh(DhPair(s, t).0, DhPair(s, t).1);
    if x.Some? {
      KeyMoves(c, s', x.value);
      MovesJoin(c, s, s', MixKey(c, s', x.value), ms, [Key(x.value)], n, 0);
      assert out + [] == out;
    }
  }

  lemma WroteStatic(c: Crypto, s: Session, s': Session, ms: seq<Mix>, n: uint64, ts: seq<Token>, out: Bytes)
    requires Wrote(c, s, s', ms, n) && n <= 1
    ensures var a := After(c, ChainOf(s), ms); var sealed := Box(c, a.key, n as uint8, a.hash, s.localPublic);
            var s'' := EncryptAndHash(c, s', s'.localPublic).s;
            && EncryptAndHash(c, s', s'.localPublic).Done?
            && WriteTokens(c, s', [S] + ts, out) == WriteTokens(c, s'', ts, out + sealed)
            && Wrote(c, s, s'', ms + [Hash(sealed)], n + 1)
  {
    hide After, WriteTokens, Box;
    WroteOne(c, s', S, ts, out);
    Encrypts(c, s', s'.localPublic);
    var p := EncryptAndHash(c, s', s'.localPublic);
    MovesJoin(c, s, s', p.s, ms, [Hash(p.out)], n, n + 1);
  }

  lemma WrotePsk(c: Crypto, s: Session, s': Session, ms: seq<Mix>, ts: seq<Token>, out: Bytes)
    requires Begun(c, s, s', ms)
    ensures var s'' := MixKeyAndHash(c, s', s'.psk);
            WriteTokens(c, s', [PSK] + ts, out) == WriteTokens(c, s'', ts, out) && Wrote(c, s, s'', ms + [Both(s.psk)], 0)
  {
    hide After, WriteTokens;
    WroteOne(c, s', PSK, ts, out);
    BothMoves(c, s', s'.psk);
    WritesJoin(c, s, s', MixKeyAndHash(c, s', s'.psk), ms, [Both(s.psk)], 0);
    assert out + [] == out;
  }

  lemma WroteNothing(c: Crypto, s: Session, out: Bytes)
    ensures WriteTokens(c, s, [], out) == Done(s, out)
  {
  }

  lemma EsThenPsk(c: Crypto, s: Session, s': Session, ms: seq<Mix>, out: Bytes)
    requires Wrote(c, s, s', ms, s'.nonce)
    ensures var p := WriteTokens(c, s', [ES, PSK], out);
            var es := c.dh(DhPair(s, ES).0, DhPair(s, ES).1);
            if es.None? then p == Stop(ERR_AUTH)
            else p.Done? && p.out == out && Wrote(c, s, p.s, ms + [Key(es.value), Both(s.psk)], 0)
  {
    hide WriteTokens, After, Wrote, MixKey, MixKeyAndHash, DhPair;
    var es := c.dh(DhPair(s, ES).0, DhPair(s, ES).1);
    assert [ES, PSK] == [ES] + [PSK] && [PSK] == [PSK] + [];
    WroteMix(c, s, s', ms, s'.nonce, ES, [PSK], out);
    if es.Some? {
      var s'' := MixKey(c, s', es.value);
      Sets(c, s, s'', ms + [Key(es.value)], 0);
      WrotePsk(c, s, s'', ms + [Key(es.value)], [], out);
      WroteNothing(c, MixKeyAndHash(c, s'', s''.psk), out);
      assert ms + [Key(es.value)] + [Both(s.psk)] == ms + [Key(es.value), Both(s.psk)];
    }
  }

  lemma Sets(c: Crypto, s: Session, s': Session, ms: seq<Mix>, n: uint64)
    requires Wrote(c, s, s', ms, n)
    ensures s'.nonce == n
  {
    hide After;
  }

  /** The head of the second XX message: everything before its payload. */
  lemma XXSecondTokens(c: Crypto, s: Session)
    requires !s.initiator
    ensures var p := WriteTokens(c, s, [E, EE, S, ES, PSK], []);
            var e, ee, es := Public(c, s.ephemeral), c.dh(s.ephemeral, s.remoteEphemeral), c.dh(s.localStatic, s.remoteEphemeral);
            if e.None? || ee.None? || es.None? then p == Stop(ERR_AUTH)
            else
              var a := After(c, ChainOf(s), [Hash(e.value), Key(e.value), Key(ee.value)]);
              var sealed := Box(c, a.key, 0, a.hash, s.localPublic);
              && p.Done? && p.out == e.value + sealed
              && Wrote(c, s, p.s, [Hash(e.value), Key(e.value), Key(ee.value), Hash(sealed), Key(es.value), Both(s.psk)], 0)
  {
    hide WriteTokens, After, Box, Wrote, Public, MixKey, MixHash, EncryptAndHash, MixKeyAndHash;
    var e, ee, es := Public(c, s.ephemeral), c.dh(s.ephemeral, s.remoteEphemeral), c.dh(s.localStatic, s.remoteEphemeral);
    assert [E, EE, S, ES, PSK] == [E] + [EE, S, ES, PSK];
    WroteEphemeral(c, s, s, [], [EE, S, ES, PSK], []);
    if e.Some? {
      var h, k := Hash(e.value), Key(e.value);
      var s1 := MixKey(c, MixHash(c, s, e.value), e.value);
      assert [EE, S, ES, PSK] == [EE] + [S, ES, PSK] && [] + [h, k] == [h, k] && [] + e.value == e.value;
      WroteMix(c, s, s1, [h, k], 0, EE, [S, ES, PSK], e.value);
      if ee.Some? {
        var s2 := MixKey(c, s1, ee.value);
        assert [S, ES, PSK] == [S] + [ES, PSK] && [h, k] + [Key(ee.value)] == [h, k, Key(ee.value)];
        WroteStatic(c, s, s2, [h, k, Key(ee.value)], 0, [ES, PSK], e.value);
        var s3 := EncryptAndHash(c, s2, s2.localPublic).s;
        var a := After(c, ChainOf(s), [h, k, Key(ee.value)]);
        var sealed := Box(c, a.key, 0, a.hash, s.localPublic);
        assert [h, k, Key(ee.value)] + [Hash(sealed)] == [h, k, Key(ee.value), Hash(sealed)];
        Sets(c, s, s3, [h, k, Key(ee.value), Hash(sealed)], 1);
        EsThenPsk(c, s, s3, [h, k, Key(ee.value), Hash(sealed)], e.value + sealed);
        if es.Some? {
          assert [h, k, Key(ee.value), Hash(sealed)] + [Key(es.value), Both(s.psk)]
              == [h, k, Key(ee.value), Hash(sealed), Key(es.value), Both(s.psk)];
        }
      }
    }
  }

  lemma XXFirstTokens(c: Crypto, s: Session)
    ensures var p, e := WriteTokens(c, s, [E], []), Public(c, s.ephemeral);
            if e.None? then p == Stop(ERR_AUTH)
            else p.Done? && p.out == e.value && Wrote(c, s, p.s, [Hash(e.value), Key(e.value)], 0)
  {
    hide WriteTokens, After, Wrote, Public, MixKey, MixHash;
    var e := Public(c, s.ephemeral);
    assert [E] == [E] + [];
    WroteEphemeral(c, s, s, [], [], []);
    if e.Some? {
      assert [] + [Hash(e.value), Key(e.value)] == [Hash(e.value), Key(e.value)] && [] + e.value == e.value;
      WroteNothing(c, MixKey(c, MixHash(c, s, e.value), e.value), e.value);
    }
  }

  lemma XXThirdTokens(c: Crypto, s: Session)
    requires s.initiator && s.hasKey && s.nonce == 1
    ensures var p, se := WriteTokens(c, s, [S, SE], []), c.dh(s.localStatic, s.remoteEphemeral);
            var sealed := Box(c, s.key, 1, s.hash, s.localPublic);
            if se.None? then p == Stop(ERR_AUTH)
            else p.Done? && p.out == sealed && Wrote(c, s, p.s, [Hash(sealed), Key(se.value)], 0)
  {
    hide WriteTokens, After, Box, Wrote, MixKey, EncryptAndHash;
    var se := c.dh(s.localStatic, s.remoteEphemeral);
    var sealed := Box(c, s.key, 1, s.hash, s.localPublic);
    assert [S, SE] == [S] + [SE] && [SE] == [SE] + [];
    StandsStill(c, s);
    WroteStatic(c, s, s, [], 1, [SE], []);
    var s1 := EncryptAndHash(c, s, s.localPublic).s;
    assert [] + [Hash(sealed)] == [Hash(sealed)] && [] + sealed == sealed;
    WroteMix(c, s, s1, [Hash(sealed)], 2, SE, [], sealed);
    if se.Some? {
      assert [Hash(sealed)] + [Key(se.value)] == [Hash(sealed), Key(se.value)];
      WroteNothing(c, MixKey(c, s1, se.value), sealed);
    }
  }

  lemma StandsStill(c: Crypto, s: Session)
    requires s.hasKey
    ensures Wrote(c, s, s, [], s.nonce) && After(c, ChainOf(s), []) == ChainOf(s)
  {
  }

  lemma KKFirstTokens(c: Crypto, s: Session)
    requires s.initiator
    ensures var p := WriteTokens(c, s, [PSK, E, ES, SS], []);
            var e, es, ss := Public(c, s.ephemeral), c.dh(s.ephemeral, s.remoteStatic), c.dh(s.localStatic, s.remoteStatic);
            if e.None? || es.None? || ss.None? then p == Stop(ERR_AUTH)
            else p.Done? && p.out == e.value
                 && Wrote(c, s, p.s, [Both(s.psk), Hash(e.value), Key(e.value), Key(es.value), Key(ss.value)], 0)
  {
    hide WriteTokens, After, Wrote, Public, MixKey, MixHash, MixKeyAndHash;
    var e, es, ss := Public(c, s.ephemeral), c.dh(s.ephemeral, s.remoteStatic), c.dh(s.localStatic, s.remoteStatic);
    assert [PSK, E, ES, SS] == [PSK] + [E, ES, SS] && [E, ES, SS] == [E] + [ES, SS];
    WrotePsk(c, s, s, [], [E, ES, SS], []);
    var s0, m := MixKeyAndHash(c, s, s.psk), Both(s.psk);
    assert [] + [m] == [m];
    Sets(c, s, s0, [m], 0);
    WroteEphemeral(c, s, s0, [m], [ES, SS], []);
    if e.Some? {
      var h, k := Hash(e.value), Key(e.value);
      var s1 := MixKey(c, MixHash(c, s0, e.value), e.value);
      assert [ES, SS] == [ES] + [SS] && [SS] == [SS] + [] && [m] + [h, k] == [m, h, k] && [] + e.value == e.value;
      WroteMix(c, s, s1, [m, h, k], 0, ES, [SS], e.value);
      if es.Some? {
        var s2 := MixKey(c, s1, es.value);
        assert [m, h, k] + [Key(es.value)] == [m, h, k, Key(es.value)];
        WroteMix(c, s, s2, [m, h, k, Key(es.value)], 0, SS, [], e.value);
        if ss.Some? {
          WroteNothing(c, MixKey(c, s2, ss.value), e.value);
          assert [m, h, k, Key(es.value)] + [Key(ss.value)] == [m, h, k, Key(es.value), Key(ss.value)];
        }
      }
    }
  }

  lemma KKSecondTokens(c: Crypto, s: Session)
    requires !s.initiator
    ensures var p := WriteTokens(c, s, [E, EE, SE], []);
            var e, ee, se := Public(c, s.ephemeral), c.dh(s.ephemeral, s.remoteEphemeral), c.dh(s.ephemeral, s.remoteStatic);
            if e.None? || ee.None? || se.None? then p == Stop(ERR_AUTH)
            else p.Done? && p.out == e.value
                 && Wrote(c, s, p.s, [Hash(e.value), Key(e.value), Key(ee.value), Key(se.value)], 0)
  {
    hide WriteTokens, After, Wrote, Public, MixKey, MixHash;
    var e, ee, se := Public(c, s.ephemeral), c.dh(s.ephemeral, s.remoteEphemeral), c.dh(s.ephemeral, s.remoteStatic);
    assert [E, EE, SE] == [E] + [EE, SE];
    WroteEphemeral(c, s, s, [], [EE, SE], []);
    if e.Some? {
      var h, k := Hash(e.value), Key(e.value);
      var s1 := MixKey(c, MixHash(c, s, e.value), e.value);
      assert [EE, SE] == [EE] + [SE] && [SE] == [SE] + [] && [] + [h, k] == [h, k] && [] + e.value == e.value;
      WroteMix(c, s, s1, [h, k], 0, EE, [SE], e.value);
      if ee.Some? {
        var s2 := MixKey(c, s1, ee.value);
        assert [h, k] + [Key(ee.value)] == [h, k, Key(ee.value)];
        WroteMix(c, s, s2, [h, k, Key(ee.value)], 0, SE, [], e.value);
        if se.Some? {
          WroteNothing(c, MixKey(c, s2, se.value), e.value);
          assert [h, k, Key(ee.value)] + [Key(se.value)] == [h, k, Key(ee.value), Key(se.value)];
        }
      }
    }
  }

  /** The payload goes under the key the tokens have left. */
  lemma WroteBody(c: Crypto, s: Session, payload: Bytes, ms: seq<Mix>)
    requires var p := WriteTokens(c, s, Tokens(s.pattern, s.step), []); p.Done? ==> Wrote(c, s, p.s, ms, 0)
    ensures var p, q := WriteTokens(c, s, Tokens(s.pattern, s.step), []), WriteBody(c, s, payload);
            if p.Stop? then q == p
            else
              var a := After(c, ChainOf(s), ms);
              var box := Box(c, a.key, 0, a.hash, payload);
              q.Done? && q.out == p.out + box && Wrote(c, s, q.s, ms + [Hash(box)], 1)
  {
    hide WriteTokens, EncryptAndHash, Tokens, After, Box;
    var p := WriteTokens(c, s, Tokens(s.pattern, s.step), []);
    if p.Done? {
      Encrypts(c, p.s, payload);
      var e := EncryptAndHash(c, p.s, payload);
      MovesJoin(c, s, p.s, e.s, ms, [Hash(e.out)], 0, 1);
      EncryptKeepsPeer(c, p.s, payload);
    }
  }

  lemma EncryptKeepsPeer(c: Crypto, s: Session, data: Bytes)
    ensures var p := EncryptAndHash(c, s, data);
            p.Done? ==> p.s.remoteStatic == s.remoteStatic && p.s.remoteEphemeral == s.remoteEphemeral
  {
  }

  // ------------------------------------------------------------------------------- messages written

  /** The code of a call, given whether the secrets of its message come about. */
  function WriteCode(s: Session, writes: bool, secrets: bool, payload: Bytes, capacity: nat): int {
    if s.failed || s.ready || !writes then ERR_INVALID
    else if |payload| > 65439 || capacity < |payload| + 96 then ERR_NOMEM
    else if !secrets then ERR_AUTH
    else OK
  }

  ghost predicate Advanced(s: Session, s': Session) {
    Same(s, s') && s'.hasKey && s'.remoteStatic == s.remoteStatic
  }

  /** A message that is not the last: the chain goes on. */
  lemma Written(c: Crypto, s: Session, payload: Bytes, capacity: nat)
    requires ValidStep(s) && s.step + 1 != Steps(s.pattern)
    requires var q := WriteBody(c, s, payload); (q.Done? ==> Advanced(s, q.s)) && (q.Stop? ==> q.rc == ERR_AUTH)
    ensures var (w, r) := Write(c, s, payload, capacity); var q := WriteBody(c, s, payload);
            && r.rc == WriteCode(s, MyTurn(s), q.Done?, payload, capacity)
            && (r.rc == OK ==> r.bytes == q.out && ChainOf(w) == ChainOf(q.s) && w.nonce == q.s.nonce && Continues(s, w)
                               && w.remoteStatic == s.remoteStatic)
  {
    hide WriteBody;
  }

  lemma OutOfTurn(c: Crypto, s: Session, payload: Bytes, capacity: nat)
    requires !MyTurn(s)
    ensures Write(c, s, payload, capacity).1.rc == ERR_INVALID
  {
  }

  lemma WrittenLast(c: Crypto, s: Session, payload: Bytes, capacity: nat)
    requires ValidStep(s) && s.step + 1 == Steps(s.pattern)
    requires var q := WriteBody(c, s, payload); (q.Done? ==> Advanced(s, q.s)) && (q.Stop? ==> q.rc == ERR_AUTH)
    ensures var (w, r) := Write(c, s, payload, capacity); var q := WriteBody(c, s, payload);
            && r.rc == WriteCode(s, MyTurn(s), q.Done?, payload, capacity)
            && (r.rc == OK ==> r.bytes == q.out && w.remoteStatic == s.remoteStatic && Keyed(c, ChainOf(q.s), s.initiator, w))
  {
    hide WriteBody;
    var q := WriteBody(c, s, payload);
    if q.Done? {
      Expanded(c, q.s.ck, []);
    }
  }

  lemma WriteXXFirst(c: Crypto, s: Session, payload: Bytes, capacity: nat)
    requires s.pattern == XX && s.step == 0
    ensures var (w, r) := Write(c, s, payload, capacity); var e := Public(c, s.ephemeral);
            && r.rc == WriteCode(s, s.initiator, e.Some?, payload, capacity)
            && (r.rc == OK ==> XXFirst(c, ChainOf(s), e.value, payload, r.bytes, ChainOf(w)) && w.nonce == 1 && Continues(s, w))
  {
    hide WriteTokens, WriteBody, Write, After, Box, Public;
    XXFirstTokens(c, s);
    var e := Public(c, s.ephemeral);
    var ms := if e.Some? then [Hash(e.value), Key(e.value)] else [];
    WroteBody(c, s, payload, ms);
    Written(c, s, payload, capacity);
    if e.Some? {
      var a := After(c, ChainOf(s), ms);
      AfterBoth(c, ChainOf(s), ms, [Hash(Box(c, a.key, 0, a.hash, payload))]);
    }
  }

  lemma WriteXXSecond(c: Crypto, s: Session, payload: Bytes, capacity: nat)
    requires s.pattern == XX && s.step == 1
    ensures var (w, r) := Write(c, s, payload, capacity);
            var e, ee, es := Public(c, s.ephemeral), c.dh(s.ephemeral, s.remoteEphemeral), c.dh(s.localStatic, s.remoteEphemeral);
            && r.rc == WriteCode(s, !s.initiator, e.Some? && ee.Some? && es.Some?, payload, capacity)
            && (r.rc == OK ==>
                  XXSecond(c, ChainOf(s), s.psk, e.value, ee.value, s.localPublic, es.value, payload, r.bytes, ChainOf(w))
                  && w.nonce == 1 && Continues(s, w) && w.remoteStatic == s.remoteStatic)
  {
    hide WriteTokens, WriteBody, Write, After, Box, Public;
    var e, ee, es := Public(c, s.ephemeral), c.dh(s.ephemeral, s.remoteEphemeral), c.dh(s.localStatic, s.remoteEphemeral);
    if s.initiator {
      OutOfTurn(c, s, payload, capacity);
    } else {
      XXSecondTokens(c, s);
      if e.Some? && ee.Some? && es.Some? {
        var x, front := ChainOf(s), [Hash(e.value), Key(e.value), Key(ee.value)];
        var a := After(c, x, front);
        var back := [Hash(Box(c, a.key, 0, a.hash, s.localPublic)), Key(es.value), Both(s.psk)];
        assert front + back == [Hash(e.value), Key(e.value), Key(ee.value), back[0], Key(es.value), Both(s.psk)];
        WroteBody(c, s, payload, front + back);
        AfterBoth(c, x, front, back);
        var b := After(c, a, back);
        AfterBoth(c, x, front + back, [Hash(Box(c, b.key, 0, b.hash, payload))]);
      } else {
        WroteBody(c, s, payload, []);
      }
      Written(c, s, payload, capacity);
    }
  }

  lemma WriteXXThird(c: Crypto, s: Session, payload: Bytes, capacity: nat)
    requires s.pattern == XX && s.step == 2 && s.hasKey && s.nonce == 1
    ensures var (w, r) := Write(c, s, payload, capacity); var se := c.dh(s.localStatic, s.remoteEphemeral);
            && r.rc == WriteCode(s, s.initiator, se.Some?, payload, capacity)
            && (r.rc == OK ==>
                  && w.remoteStatic == s.remoteStatic
                  && exists y :: XXThird(c, ChainOf(s), s.localPublic, se.value, payload, r.bytes, y) && Keyed(c, y, true, w))
  {
    hide WriteTokens, WriteBody, Write, After, Box, Keyed;
    var x, se := ChainOf(s), c.dh(s.localStatic, s.remoteEphemeral);
    if !s.initiator {
      OutOfTurn(c, s, payload, capacity);
    } else {
      XXThirdTokens(c, s);
      var sealed := Box(c, s.key, 1, s.hash, s.localPublic);
      var ms := if se.Some? then [Hash(sealed), Key(se.value)] else [];
      WroteBody(c, s, payload, ms);
      WrittenLast(c, s, payload, capacity);
      if se.Some? {
        var a := After(c, x, ms);
        AfterBoth(c, x, ms, [Hash(Box(c, a.key, 0, a.hash, payload))]);
        var (w, r) := Write(c, s, payload, capacity);
        var y := ChainOf(WriteBody(c, s, payload).s);
        if r.rc == OK {
          assert XXThird(c, x, s.localPublic, se.value, payload, r.bytes, y) && Keyed(c, y, true, w);
        }
      }
    }
  }

  lemma WriteKKFirst(c: Crypto, s: Session, payload: Bytes, capacity: nat)
    requires s.pattern == KK && s.step == 0
    ensures var (w, r) := Write(c, s, payload, capacity);
            var e, es, ss := Public(c, s.ephemeral), c.dh(s.ephemeral, s.remoteStatic), c.dh(s.localStatic, s.remoteStatic);
            && r.rc == WriteCode(s, s.initiator, e.Some? && es.Some? && ss.Some?, payload, capacity)
            && (r.rc == OK ==>
                  KKFirst(c, ChainOf(s), s.psk, e.value, es.value, ss.value, payload, r.bytes, ChainOf(w)) && w.nonce == 1
                  && Continues(s, w) && w.remoteStatic == s.remoteStatic)
  {
    hide WriteTokens, WriteBody, Write, After, Box, Public;
    var x := ChainOf(s);
    var e, es, ss := Public(c, s.ephemeral), c.dh(s.ephemeral, s.remoteStatic), c.dh(s.localStatic, s.remoteStatic);
    if !s.initiator {
      OutOfTurn(c, s, payload, capacity);
    } else {
      KKFirstTokens(c, s);
      var ms := if e.Some? && es.Some? && ss.Some? then [Both(s.psk), Hash(e.value), Key(e.value), Key(es.value), Key(ss.value)]
                else [];
      WroteBody(c, s, payload, ms);
      Written(c, s, payload, capacity);
      var a := After(c, x, ms);
      AfterBoth(c, x, ms, [Hash(Box(c, a.key, 0, a.hash, payload))]);
    }
  }

  lemma WriteKKSecond(c: Crypto, s: Session, payload: Bytes, capacity: nat)
    requires s.pattern == KK && s.step == 1
    ensures var (w, r) := Write(c, s, payload, capacity);
            var e, ee, se := Public(c, s.ephemeral), c.dh(s.ephemeral, s.remoteEphemeral), c.dh(s.ephemeral, s.remoteStatic);
            && r.rc == WriteCode(s, !s.initiator, e.Some? && ee.Some? && se.Some?, payload, capacity)
            && (r.rc == OK ==>
                  && w.remoteStatic == s.remoteStatic
                  && exists y :: KKSecond(c, ChainOf(s), e.value, ee.value, se.value, payload, r.bytes, y) && Keyed(c, y, false, w))
  {
    hide WriteTokens, WriteBody, Write, After, Box, Public, Keyed;
    var x := ChainOf(s);
    var e, ee, se := Public(c, s.ephemeral), c.dh(s.ephemeral, s.remoteEphemeral), c.dh(s.ephemeral, s.remoteStatic);
    if s.initiator {
      OutOfTurn(c, s, payload, capacity);
    } else {
      KKSecondTokens(c, s);
      var ms := if e.Some? && ee.Some? && se.Some? then [Hash(e.value), Key(e.value), Key(ee.value), Key(se.value)] else [];
      WroteBody(c, s, payload, ms);
      WrittenLast(c, s, payload, capacity);
      var a := After(c, x, ms);
      AfterBoth(c, x, ms, [Hash(Box(c, a.key, 0, a.hash, payload))]);
      var (w, r) := Write(c, s, payload, capacity);
      if r.rc == OK {
        var y := ChainOf(WriteBody(c, s, payload).s);
        assert KKSecond(c, x, e.value, ee.value, se.value, payload, r.bytes, y) && Keyed(c, y, false, w);
      }
    }
  }
}
