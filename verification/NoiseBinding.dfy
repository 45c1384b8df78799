/** What equal messages tell about the parties that wrote and read them. */
module NoiseBinding {
  import opened Status
  import opened Words
  import opened NoiseSession
  import opened NoiseLifecycle
  import opened NoiseTranscript
  import opened NoiseWritten
  import opened NoiseHeard

  // ------------------------------------------------------------------------ what equal messages tell

  /** The three HMAC keys and texts behind the outputs do not collide. */
  ghost predicate OutputsApart(c: Crypto, ck: Bytes, d: Bytes, ck': Bytes, d': Bytes) {
    var t, t' := c.hmac(ck, d), c.hmac(ck', d');
    && (t == t' ==> ck == ck' && d == d')
    && (forall i :: 1 <= i <= 3 && Output(c, ck, d, i) == Output(c, ck', d', i) ==> t == t')
  }

  ghost predicate HashesApart(c: Crypto, a: Bytes, b: Bytes) {
    c.hash(a) == c.hash(b) ==> a == b
  }

  /** Mixing in these two values, each into its chain, runs into no collision of hash or HMAC. */
  ghost predicate Apart(c: Crypto, x: Chain, m: Mix, x': Chain, m': Mix) {
    match m
    case Hash(d) => m'.Hash? && HashesApart(c, x.hash + d, x'.hash + m'.data)
    case Key(d) => m'.Key? && OutputsApart(c, x.ck, d, x'.ck, m'.secret)
    case Both(d) =>
      m'.Both? && OutputsApart(c, x.ck, d, x'.ck, m'.secret)
      && HashesApart(c, x.hash + Output(c, x.ck, d, 2), x'.hash + Output(c, x'.ck, m'.secret, 2))
  }

  /** Nowhere along two chains of the same kinds of mixes. */
  ghost predicate AllApart(c: Crypto, x: Chain, ms: seq<Mix>, x': Chain, ms': seq<Mix>)
    decreases |ms|
  {
    |ms| == |ms'| &&
    (ms == [] || var n := |ms| - 1;
                 && AllApart(c, x, ms[..n], x', ms'[..n])
                 && Apart(c, After(c, x, ms[..n]), ms[n], After(c, x', ms'[..n]), ms'[n]))
  }

  /** Two sealings do not collide either. */
  ghost predicate BoxesApart(c: Crypto, a: Chain, text: Bytes, b: Chain, text': Bytes) {
    Box(c, a.key, 0, a.hash, text) == Box(c, b.key, 0, b.hash, text') ==> a.key == b.key && a.hash == b.hash && text == text'
  }

  ghost predicate Sized(x: Chain) {
    |x.hash| == 32
  }

  lemma SameMix(c: Crypto, x: Chain, m: Mix, x': Chain, m': Mix)
    requires Apart(c, x, m, x', m') && Sized(x) && Sized(x')
    requires Mixed(c, x, m).ck == Mixed(c, x', m').ck && Mixed(c, x, m).hash == Mixed(c, x', m').hash
    ensures m == m' && x.ck == x'.ck && x.hash == x'.hash
  {
    hide Output;
    var d, d' := if m.Hash? then m.data else Output(c, x.ck, m.secret, 2), if m'.Hash? then m'.data else Output(c, x'.ck, m'.secret, 2);
    Prefix(x.hash, d, x'.hash, d');
  }

  lemma Prefix(a: Bytes, b: Bytes, a': Bytes, b': Bytes)
    requires |a| == |a'|
    ensures a + b == a' + b' ==> a == a' && b == b'
  {
    if a + b == a' + b' {
      assert (a + b)[..|a|] == a && (a' + b')[..|a|] == a' && (a + b)[|a|..] == b && (a' + b')[|a|..] == b';
    }
  }

  /** The last key mixed in is known by the key it leaves. */
  lemma SameKey(c: Crypto, x: Chain, m: Mix, x': Chain, m': Mix)
    requires Apart(c, x, m, x', m') && Sized(x) && Sized(x') && !m.Hash?
    requires Mixed(c, x, m).key == Mixed(c, x', m').key && Mixed(c, x, m).hash == Mixed(c, x', m').hash
    ensures m == m' && x.ck == x'.ck && x.hash == x'.hash
  {
    hide Output;
    Prefix(x.hash, Output(c, x.ck, m.secret, 2), x'.hash, Output(c, x'.ck, m'.secret, 2));
  }

  lemma {:induction false} StaysSized(c: Crypto, x: Chain, ms: seq<Mix>)
    requires Authentic(c) && Sized(x)
    ensures Sized(After(c, x, ms))
    decreases |ms|
  {
    hide Output;
    if ms != [] {
      StaysSized(c, x, ms[..|ms| - 1]);
    }
  }

  /** Chains that end alike began alike and mixed in the same values. */
  lemma {:induction false} ChainBinds(c: Crypto, x: Chain, ms: seq<Mix>, x': Chain, ms': seq<Mix>)
    requires Authentic(c) && Sized(x) && Sized(x') && AllApart(c, x, ms, x', ms')
    requires After(c, x, ms).ck == After(c, x', ms').ck && After(c, x, ms).hash == After(c, x', ms').hash
    ensures ms == ms' && x.ck == x'.ck && x.hash == x'.hash
    decreases |ms|
  {
    hide Authentic, Mixed, Apart;
    if ms != [] {
      var n := |ms| - 1;
      StaysSized(c, x, ms[..n]);
      StaysSized(c, x', ms'[..n]);
      SameMix(c, After(c, x, ms[..n]), ms[n], After(c, x', ms'[..n]), ms'[n]);
      ChainBinds(c, x, ms[..n], x', ms'[..n]);
      assert ms == ms[..n] + [ms[n]] && ms' == ms'[..n] + [ms'[n]];
    }
  }

  /** So do chains whose last mix is a key, if they end in the same key and hash. */
  lemma KeyBinds(c: Crypto, x: Chain, ms: seq<Mix>, x': Chain, ms': seq<Mix>)
    requires Authentic(c) && Sized(x) && Sized(x') && AllApart(c, x, ms, x', ms') && ms != [] && !ms[|ms| - 1].Hash?
    requires After(c, x, ms).key == After(c, x', ms').key && After(c, x, ms).hash == After(c, x', ms').hash
    ensures ms == ms' && x.ck == x'.ck && x.hash == x'.hash
  {
    hide Authentic, Mixed, Apart;
    var n := |ms| - 1;
    StaysSized(c, x, ms[..n]);
    StaysSized(c, x', ms'[..n]);
    SameKey(c, After(c, x, ms[..n]), ms[n], After(c, x', ms'[..n]), ms'[n]);
    ChainBinds(c, x, ms[..n], x', ms'[..n]);
    assert ms == ms[..n] + [ms[n]] && ms' == ms'[..n] + [ms'[n]];
  }

  /** The mixes before the payload of the second XX message. */
  ghost function XXSecondMixes(c: Crypto, x: Chain, psk: Bytes, e: Bytes, ee: Bytes, s: Bytes, es: Bytes): seq<Mix> {
    var a := After(c, x, [Hash(e), Key(e), Key(ee)]);
    [Hash(e), Key(e), Key(ee), Hash(Box(c, a.key, 0, a.hash, s)), Key(es), Both(psk)]
  }

  lemma {:induction false} KeyForgotten(c: Crypto, x: Chain, x': Chain, ms: seq<Mix>)
    requires x.ck == x'.ck && x.hash == x'.hash
    ensures After(c, x, ms).ck == After(c, x', ms).ck && After(c, x, ms).hash == After(c, x', ms).hash
    decreases |ms|
  {
    hide Output;
    if ms != [] {
      KeyForgotten(c, x, x', ms[..|ms| - 1]);
    }
  }

  lemma XXSecondParts(c: Crypto, x: Chain, psk: Bytes, e: Bytes, ee: Bytes, s: Bytes, es: Bytes, payload: Bytes,
                      message: Bytes, y: Chain) returns (sealed: Bytes, box: Bytes)
    requires Lawful(c) && XXSecond(c, x, psk, e, ee, s, es, payload, message, y)
    ensures var b := After(c, x, XXSecondMixes(c, x, psk, e, ee, s, es));
            && message == e + (sealed + box) && |sealed| == |s| + 16 && box == Box(c, b.key, 0, b.hash, payload)
            && y == After(c, b, [Hash(box)])
  {
    hide After;
    var front := [Hash(e), Key(e), Key(ee)];
    var a := After(c, x, front);
    sealed := Box(c, a.key, 0, a.hash, s);
    var back := [Hash(sealed), Key(es), Both(psk)];
    AfterBoth(c, x, front, back);
    assert front + back == XXSecondMixes(c, x, psk, e, ee, s, es);
    var b := After(c, a, back);
    box := Box(c, b.key, 0, b.hash, payload);
  }

  /** A box at the end of a message, and the chain it ends. */
  lemma BoxBinds(c: Crypto, x: Chain, ms: seq<Mix>, text: Bytes, x': Chain, ms': seq<Mix>, text': Bytes)
    requires Authentic(c) && Sized(x) && Sized(x') && AllApart(c, x, ms, x', ms') && ms != [] && !ms[|ms| - 1].Hash?
    requires var a, a' := After(c, x, ms), After(c, x', ms');
             BoxesApart(c, a, text, a', text') && Box(c, a.key, 0, a.hash, text) == Box(c, a'.key, 0, a'.hash, text')
    ensures ms == ms' && text == text' && x.ck == x'.ck && x.hash == x'.hash && After(c, x, ms) == After(c, x', ms')
  {
    hide AllApart, After, Authentic, Box;
    KeyBinds(c, x, ms, x', ms');
    KeyForgotten(c, x, x', ms);
  }

  /**
   * Two parties that hold the same second XX message, written or read, have the same pre-shared key, the same two shared
   * secrets, the same payload and the same past, unless hash, HMAC or sealing collide along the way.
   */
  lemma XXSecondBinds(c: Crypto, x: Chain, psk: Bytes, e: Bytes, ee: Bytes, s: Bytes, es: Bytes, payload: Bytes,
                      message: Bytes, y: Chain, x': Chain, psk': Bytes, e': Bytes, ee': Bytes, s': Bytes, es': Bytes,
                      payload': Bytes, y': Chain)
    requires Lawful(c) && Authentic(c) && Sized(x) && Sized(x') && |e| == |e'| == 32 && |s| == |s'|
    requires XXSecond(c, x, psk, e, ee, s, es, payload, message, y) && XXSecond(c, x', psk', e', ee', s', es', payload', message, y')
    requires var ms, ms' := XXSecondMixes(c, x, psk, e, ee, s, es), XXSecondMixes(c, x', psk', e', ee', s', es');
             AllApart(c, x, ms, x', ms') && BoxesApart(c, After(c, x, ms), payload, After(c, x', ms'), payload')
    ensures psk == psk' && e == e' && ee == ee' && es == es' && payload == payload' && x.ck == x'.ck && x.hash == x'.hash && y == y'
  {
    hide AllApart, After, Box;
    var ms, ms' := XXSecondMixes(c, x, psk, e, ee, s, es), XXSecondMixes(c, x', psk', e', ee', s', es');
    var sealed, box := XXSecondParts(c, x, psk, e, ee, s, es, payload, message, y);
    var sealed', box' := XXSecondParts(c, x', psk', e', ee', s', es', payload', message, y');
    Prefix(e, sealed + box, e', sealed' + box');
    Prefix(sealed, box, sealed', box');
    BoxBinds(c, x, ms, payload, x', ms', payload');
    assert ms[2] == ms'[2] && ms[4] == ms'[4] && ms[5] == ms'[5];
  }

  lemma XXFirstBinds(c: Crypto, x: Chain, e: Bytes, payload: Bytes, message: Bytes, y: Chain,
                     x': Chain, e': Bytes, payload': Bytes, y': Chain)
    requires Authentic(c) && Sized(x) && Sized(x') && |e| == |e'| == 32
    requires XXFirst(c, x, e, payload, message, y) && XXFirst(c, x', e', payload', message, y')
    requires var ms, ms' := [Hash(e), Key(e)], [Hash(e'), Key(e')];
             AllApart(c, x, ms, x', ms') && BoxesApart(c, After(c, x, ms), payload, After(c, x', ms'), payload')
    ensures e == e' && payload == payload' && x.ck == x'.ck && x.hash == x'.hash && y == y'
  {
    hide AllApart, After, Box;
    var ms, ms' := [Hash(e), Key(e)], [Hash(e'), Key(e')];
    var a, a' := After(c, x, ms), After(c, x', ms');
    Prefix(e, Box(c, a.key, 0, a.hash, payload), e', Box(c, a'.key, 0, a'.hash, payload'));
    BoxBinds(c, x, ms, payload, x', ms', payload');
  }

  ghost function XXThirdMixes(c: Crypto, x: Chain, s: Bytes, se: Bytes): seq<Mix> {
    [Hash(Box(c, x.key, 1, x.hash, s)), Key(se)]
  }

  lemma XXThirdBinds(c: Crypto, x: Chain, s: Bytes, se: Bytes, payload: Bytes, message: Bytes, y: Chain,
                     x': Chain, s': Bytes, se': Bytes, payload': Bytes, y': Chain)
    requires Lawful(c) && Authentic(c) && Sized(x) && Sized(x') && |s| == |s'|
    requires XXThird(c, x, s, se, payload, message, y) && XXThird(c, x', s', se', payload', message, y')
    requires var ms, ms' := XXThirdMixes(c, x, s, se), XXThirdMixes(c, x', s', se');
             AllApart(c, x, ms, x', ms') && BoxesApart(c, After(c, x, ms), payload, After(c, x', ms'), payload')
    ensures se == se' && payload == payload' && x.ck == x'.ck && x.hash == x'.hash && y == y'
  {
    hide AllApart, After, Box;
    var ms, ms' := XXThirdMixes(c, x, s, se), XXThirdMixes(c, x', s', se');
    var a, a' := After(c, x, ms), After(c, x', ms');
    BoxLength(c, x, 1, s);
    BoxLength(c, x', 1, s');
    Prefix(Box(c, x.key, 1, x.hash, s), Box(c, a.key, 0, a.hash, payload),
           Box(c, x'.key, 1, x'.hash, s'), Box(c, a'.key, 0, a'.hash, payload'));
    BoxBinds(c, x, ms, payload, x', ms', payload');
    assert ms[1] == ms'[1];
  }

  lemma BoxLength(c: Crypto, x: Chain, n: uint8, text: Bytes)
    requires Lawful(c)
    ensures |Box(c, x.key, n, x.hash, text)| == |text| + 16
  {
  }

  /** Two parties that hold the same first KK message share its three secrets, its payload and the past. */
  lemma KKFirstBinds(c: Crypto, x: Chain, psk: Bytes, e: Bytes, es: Bytes, ss: Bytes, payload: Bytes, message: Bytes, y: Chain,
                     x': Chain, psk': Bytes, e': Bytes, es': Bytes, ss': Bytes, payload': Bytes, y': Chain)
    requires Authentic(c) && Sized(x) && Sized(x') && |e| == |e'| == 32
    requires KKFirst(c, x, psk, e, es, ss, payload, message, y) && KKFirst(c, x', psk', e', es', ss', payload', message, y')
    requires var ms, ms' := [Both(psk), Hash(e), Key(e), Key(es), Key(ss)], [Both(psk'), Hash(e'), Key(e'), Key(es'), Key(ss')];
             AllApart(c, x, ms, x', ms') && BoxesApart(c, After(c, x, ms), payload, After(c, x', ms'), payload')
    ensures psk == psk' && e == e' && es == es' && ss == ss' && payload == payload'
    ensures x.ck == x'.ck && x.hash == x'.hash && y == y'
  {
    hide AllApart, After, Box;
    var ms, ms' := [Both(psk), Hash(e), Key(e), Key(es), Key(ss)], [Both(psk'), Hash(e'), Key(e'), Key(es'), Key(ss')];
    var a, a' := After(c, x, ms), After(c, x', ms');
    Prefix(e, Box(c, a.key, 0, a.hash, payload), e', Box(c, a'.key, 0, a'.hash, payload'));
    BoxBinds(c, x, ms, payload, x', ms', payload');
    assert ms[0] == ms'[0] && ms[3] == ms'[3] && ms[4] == ms'[4];
  }

  lemma KKSecondBinds(c: Crypto, x: Chain, e: Bytes, ee: Bytes, se: Bytes, payload: Bytes, message: Bytes, y: Chain,
                      x': Chain, e': Bytes, ee': Bytes, se': Bytes, payload': Bytes, y': Chain)
    requires Authentic(c) && Sized(x) && Sized(x') && |e| == |e'| == 32
    requires KKSecond(c, x, e, ee, se, payload, message, y) && KKSecond(c, x', e', ee', se', payload', message, y')
    requires var ms, ms' := [Hash(e), Key(e), Key(ee), Key(se)], [Hash(e'), Key(e'), Key(ee'), Key(se')];
             AllApart(c, x, ms, x', ms') && BoxesApart(c, After(c, x, ms), payload, After(c, x', ms'), payload')
    ensures e == e' && ee == ee' && se == se' && payload == payload' && x.ck == x'.ck && x.hash == x'.hash && y == y'
  {
    hide AllApart, After, Box;
    var ms, ms' := [Hash(e), Key(e), Key(ee), Key(se)], [Hash(e'), Key(e'), Key(ee'), Key(se')];
    var a, a' := After(c, x, ms), After(c, x', ms');
    Prefix(e, Box(c, a.key, 0, a.hash, payload), e', Box(c, a'.key, 0, a'.hash, payload'));
    BoxBinds(c, x, ms, payload, x', ms', payload');
    assert ms[2] == ms'[2] && ms[3] == ms'[3];
  }

  /** No collision between what a party's second XX message mixed and sealed and what another's reading of it did. */
  ghost predicate XXSecondApart(c: Crypto, w: Session, payload: Bytes, r: Session, r': Session, got: Bytes)
    requires Public(c, w.ephemeral).Some? && c.dh(w.ephemeral, w.remoteEphemeral).Some? && c.dh(w.localStatic, w.remoteEphemeral).Some?
    requires c.dh(r.ephemeral, r'.remoteEphemeral).Some? && c.dh(r.ephemeral, r'.remoteStatic).Some?
  {
    var ms := XXSecondMixes(c, ChainOf(w), w.psk, Public(c, w.ephemeral).value, c.dh(w.ephemeral, w.remoteEphemeral).value,
                            w.localPublic, c.dh(w.localStatic, w.remoteEphemeral).value);
    var ms' := XXSecondMixes(c, ChainOf(r), r.psk, r'.remoteEphemeral, c.dh(r.ephemeral, r'.remoteEphemeral).value,
                             r'.remoteStatic, c.dh(r.ephemeral, r'.remoteStatic).value);
    && AllApart(c, ChainOf(w), ms, ChainOf(r), ms')
    && BoxesApart(c, After(c, ChainOf(w), ms), payload, After(c, ChainOf(r), ms'), got)
  }

  /**
   * A party that reads the second XX message as another wrote it has the writer's pre-shared key and the writer's past,
   * and gets its payload, collisions apart.
   */
  lemma XXSecondAgrees(c: Crypto, w: Session, payload: Bytes, m: nat, r: Session, n: nat)
    requires Lawful(c) && Authentic(c) && Sized(ChainOf(w)) && Sized(ChainOf(r)) && |w.localPublic| == 32
    requires w.pattern == r.pattern == XX && w.step == r.step == 1
    ensures var (w', a) := Write(c, w, payload, m); var (r', b) := Read(c, r, a.bytes, n);
            a.rc == OK && b.rc == OK ==>
              && Public(c, w.ephemeral).Some? && c.dh(w.ephemeral, w.remoteEphemeral).Some?
              && c.dh(w.localStatic, w.remoteEphemeral).Some?
              && c.dh(r.ephemeral, r'.remoteEphemeral).Some? && c.dh(r.ephemeral, r'.remoteStatic).Some?
              && (XXSecondApart(c, w, payload, r, r', b.bytes) ==>
                    && w.psk == r.psk && b.bytes == payload && w.ck == r.ck && w.hash == r.hash && ChainOf(w') == ChainOf(r')
                    && c.dh(w.ephemeral, w.remoteEphemeral) == c.dh(r.ephemeral, r'.remoteEphemeral)
                    && c.dh(w.localStatic, w.remoteEphemeral) == c.dh(r.ephemeral, r'.remoteStatic))
  {
    hide Lawful, Authentic, Write, Read, XXSecond, XXSecondMixes, AllApart, BoxesApart, After;
    var (w', a) := Write(c, w, payload, m);
    var (r', b) := Read(c, r, a.bytes, n);
    WriteXXSecond(c, w, payload, m);
    ReadXXSecond(c, r, a.bytes, n);
    if a.rc == OK && b.rc == OK && XXSecondApart(c, w, payload, r, r', b.bytes) {
      PublicLength(c, w.ephemeral);
      XXSecondBinds(c, ChainOf(w), w.psk, Public(c, w.ephemeral).value, c.dh(w.ephemeral, w.remoteEphemeral).value, w.localPublic,
                    c.dh(w.localStatic, w.remoteEphemeral).value, payload, a.bytes, ChainOf(w'),
                    ChainOf(r), r.psk, r'.remoteEphemeral, c.dh(r.ephemeral, r'.remoteEphemeral).value, r'.remoteStatic,
                    c.dh(r.ephemeral, r'.remoteStatic).value, b.bytes, ChainOf(r'));
    }
  }

  lemma PublicLength(c: Crypto, key: Bytes)
    requires Lawful(c)
    ensures Public(c, key).Some? ==> |Public(c, key).value| == 32
  {
  }

  ghost predicate KKFirstApart(c: Crypto, w: Session, payload: Bytes, r: Session, r': Session, got: Bytes)
    requires Public(c, w.ephemeral).Some? && c.dh(w.ephemeral, w.remoteStatic).Some? && c.dh(w.localStatic, w.remoteStatic).Some?
    requires c.dh(r.localStatic, r'.remoteEphemeral).Some? && c.dh(r.localStatic, r.remoteStatic).Some?
  {
    var e, e' := Public(c, w.ephemeral).value, r'.remoteEphemeral;
    var ms := [Both(w.psk), Hash(e), Key(e), Key(c.dh(w.ephemeral, w.remoteStatic).value), Key(c.dh(w.localStatic, w.remoteStatic).value)];
    var ms' := [Both(r.psk), Hash(e'), Key(e'), Key(c.dh(r.localStatic, e').value), Key(c.dh(r.localStatic, r.remoteStatic).value)];
    && AllApart(c, ChainOf(w), ms, ChainOf(r), ms')
    && BoxesApart(c, After(c, ChainOf(w), ms), payload, After(c, ChainOf(r), ms'), got)
  }

  /** So does a party that reads the first KK message as another wrote it. */
  lemma KKFirstAgrees(c: Crypto, w: Session, payload: Bytes, m: nat, r: Session, n: nat)
    requires Lawful(c) && Authentic(c) && Sized(ChainOf(w)) && Sized(ChainOf(r))
    requires w.pattern == r.pattern == KK && w.step == r.step == 0
    ensures var (w', a) := Write(c, w, payload, m); var (r', b) := Read(c, r, a.bytes, n);
            a.rc == OK && b.rc == OK ==>
              && Public(c, w.ephemeral).Some? && c.dh(w.ephemeral, w.remoteStatic).Some? && c.dh(w.localStatic, w.remoteStatic).Some?
              && c.dh(r.localStatic, r'.remoteEphemeral).Some? && c.dh(r.localStatic, r.remoteStatic).Some?
              && (KKFirstApart(c, w, payload, r, r', b.bytes) ==>
                    && w.psk == r.psk && b.bytes == payload && w.ck == r.ck && w.hash == r.hash && ChainOf(w') == ChainOf(r')
                    && c.dh(w.ephemeral, w.remoteStatic) == c.dh(r.localStatic, r'.remoteEphemeral)
                    && c.dh(w.localStatic, w.remoteStatic) == c.dh(r.localStatic, r.remoteStatic))
  {
    hide Lawful, Authentic, Write, Read, KKFirst, AllApart, BoxesApart, After;
    var (w', a) := Write(c, w, payload, m);
    var (r', b) := Read(c, r, a.bytes, n);
    WriteKKFirst(c, w, payload, m);
    ReadKKFirst(c, r, a.bytes, n);
    if a.rc == OK && b.rc == OK && KKFirstApart(c, w, payload, r, r', b.bytes) {
      PublicLength(c, w.ephemeral);
      KKFirstBinds(c, ChainOf(w), w.psk, Public(c, w.ephemeral).value, c.dh(w.ephemeral, w.remoteStatic).value,
                   c.dh(w.localStatic, w.remoteStatic).value, payload, a.bytes, ChainOf(w'),
                   ChainOf(r), r.psk, r'.remoteEphemeral, c.dh(r.localStatic, r'.remoteEphemeral).value,
                   c.dh(r.localStatic, r.remoteStatic).value, b.bytes, ChainOf(r'));
    }
  }
}
