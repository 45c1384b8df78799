/** Two linked parties exchanging frames over channels that keep their order: every run. */
module NoiseTransport {
  import opened Status
  import opened Words
  import opened Octets
  import opened NoiseSession
  import opened NoiseLifecycle
  import opened NoiseHandshake

  // --------------------------------------------------------------------------------------- markers

  /** The flag after a sequence of frames, None once one is out of place. */
  function Flag(frames: seq<Bytes>): Option<bool> {
    if frames == [] then Some(false)
    else
      match Flag(frames[..|frames| - 1])
      case None => None
      case Some(chunked) => Mark(chunked, frames[|frames| - 1])
  }

  /** An application message on the wire: one frame, or a first chunk, any number of middle ones, and a last. */
  datatype Message = Single(marker: uint8) | Chunked(first: uint8, middles: nat)

  predicate WellMarked(m: Message) {
    match m
    case Single(k) => k < 2
    case Chunked(k, _) => 2 <= k < 4
  }

  function Repeat(k: uint8, n: nat): (s: seq<uint8>)
    ensures |s| == n && forall i :: 0 <= i < n ==> s[i] == k
  {
    seq(n, _ => k)
  }

  function MessageMarkers(m: Message): seq<uint8> {
    match m
    case Single(k) => [k]
    case Chunked(k, n) => [k] + Repeat(4, n) + [5]
  }

  function AllMarkers(ms: seq<Message>): seq<uint8> {
    if ms == [] then [] else AllMarkers(ms[..|ms| - 1]) + MessageMarkers(ms[|ms| - 1])
  }

  ghost predicate WellFormed(ms: seq<Message>) {
    forall i :: 0 <= i < |ms| ==> WellMarked(ms[i])
  }

  /** Frames whose first bytes are these markers. */
  ghost predicate Carry(frames: seq<Bytes>, markers: seq<uint8>) {
    |frames| == |markers| && forall i :: 0 <= i < |frames| ==> |frames[i]| > 0 && frames[i][0] == markers[i]
  }

  lemma CarryMore(frames: seq<Bytes>, markers: seq<uint8>)
    requires frames != [] && var n := |frames| - 1; Carry(frames[..n], markers) && |frames[n]| > 0
    ensures Carry(frames, markers + [frames[|frames| - 1][0]])
  {
  }

  /** The markers of an open message: whole messages, a first chunk and some middle ones. */
  function OpenMarkers(ms: seq<Message>, open: Message): seq<uint8>
    requires open.Chunked?
  {
    AllMarkers(ms) + [open.first] + Repeat(4, open.middles)
  }

  lemma OpenGrows(ms: seq<Message>, open: Message)
    requires open.Chunked?
    ensures OpenMarkers(ms, open) + [4] == OpenMarkers(ms, open.(middles := open.middles + 1))
    ensures OpenMarkers(ms, open) + [5] == AllMarkers(ms) + MessageMarkers(open)
    ensures OpenMarkers(ms, open.(middles := 0)) == AllMarkers(ms) + [open.first]
  {
    assert Repeat(4, open.middles) + [4] == Repeat(4, open.middles + 1);
  }

  /** Accepted frames are whole messages, followed when the flag is up by one that is still open. */
  lemma {:induction false} AcceptedParse(frames: seq<Bytes>) returns (ms: seq<Message>, open: Message)
    requires Flag(frames).Some?
    ensures WellFormed(ms)
    ensures !Flag(frames).value ==> Carry(frames, AllMarkers(ms))
    ensures Flag(frames).value ==> open.Chunked? && WellMarked(open) && Carry(frames, OpenMarkers(ms, open))
    decreases |frames|
  {
    ms, open := [], Single(0);
    if frames != [] {
      var n := |frames| - 1;
      var k := frames[n][0];
      ms, open := AcceptedParse(frames[..n]);
      if k < 2 {
        CarryMore(frames, AllMarkers(ms));
        ms := Closed(ms, Single(k));
      } else if k < 4 {
        CarryMore(frames, AllMarkers(ms));
        open := Chunked(k, 0);
        OpenGrows(ms, open);
      } else {
        CarryMore(frames, OpenMarkers(ms, open));
        OpenGrows(ms, open);
        if k == 4 {
          open := Chunked(open.first, open.middles + 1);
        } else {
          ms := Closed(ms, open);
        }
      }
    }
  }

  lemma Closed(ms: seq<Message>, m: Message) returns (all: seq<Message>)
    requires WellFormed(ms) && WellMarked(m)
    ensures all == ms + [m] && WellFormed(all) && AllMarkers(all) == AllMarkers(ms) + MessageMarkers(m)
  {
    all := ms + [m];
    assert all[..|all| - 1] == ms;
  }

  lemma {:induction false} FlagOfPrefix(frames: seq<Bytes>, n: nat)
    requires Flag(frames).Some? && n <= |frames|
    ensures Flag(frames[..n]).Some?
    decreases |frames|
  {
    if n < |frames| {
      FlagOfPrefix(frames[..|frames| - 1], n);
      assert frames[..|frames| - 1][..n] == frames[..n];
    } else {
      assert frames[..n] == frames;
    }
  }

  lemma {:induction false} MiddlesAccepted(frames: seq<Bytes>, k: nat)
    requires k <= |frames| && Flag(frames[..|frames| - k]) == Some(true)
    requires forall i :: |frames| - k <= i < |frames| ==> |frames[i]| > 0 && frames[i][0] == 4
    ensures Flag(frames) == Some(true)
    decreases k
  {
    if k == 0 {
      assert frames[..|frames|] == frames;
    } else {
      var n := |frames| - 1;
      assert frames[..n][..n - (k - 1)] == frames[..|frames| - k];
      MiddlesAccepted(frames[..n], k - 1);
    }
  }

  lemma FlagSnoc(frames: seq<Bytes>, n: nat)
    requires n < |frames|
    ensures Flag(frames[..n + 1]) == match Flag(frames[..n]) case None => None case Some(f) => Mark(f, frames[n])
  {
    assert frames[..n + 1][..n] == frames[..n];
  }

  /** One more whole message after accepted ones. */
  lemma MessageAccepted(frames: seq<Bytes>, before: seq<uint8>, m: Message)
    requires WellMarked(m) && Carry(frames, before + MessageMarkers(m)) && Flag(frames[..|before|]) == Some(false)
    ensures Flag(frames) == Some(false)
  {
    var n := |before|;
    var all := before + MessageMarkers(m);
    assert all[n] == MessageMarkers(m)[0];
    FlagSnoc(frames, n);
    if m.Chunked? {
      var last := |frames| - 1;
      forall i | n + 1 <= i < last ensures |frames[i]| > 0 && frames[i][0] == 4 {
        assert all[i] == MessageMarkers(m)[i - n];
      }
      assert all[last] == 5;
      assert frames[..last][..last - m.middles] == frames[..n + 1];
      MiddlesAccepted(frames[..last], m.middles);
      FlagSnoc(frames, last);
      assert frames[..last + 1] == frames;
    } else {
      assert frames[..n + 1] == frames;
    }
  }

  lemma {:induction false} MessagesAccepted(frames: seq<Bytes>, ms: seq<Message>)
    requires WellFormed(ms) && Carry(frames, AllMarkers(ms))
    ensures Flag(frames) == Some(false)
    decreases |ms|
  {
    if ms != [] {
      var before := AllMarkers(ms[..|ms| - 1]);
      var all := before + MessageMarkers(ms[|ms| - 1]);
      forall i | 0 <= i < |before| ensures |frames[i]| > 0 && frames[i][0] == before[i] {
        assert all[i] == before[i];
      }
      MessagesAccepted(frames[..|before|], ms[..|ms| - 1]);
      MessageAccepted(frames, before, ms[|ms| - 1]);
    }
  }

  /** A sequence of frames is accepted exactly when its markers begin some sequence of whole messages. */
  lemma AcceptedIffMessages(frames: seq<Bytes>)
    ensures Flag(frames).Some? <==>
            exists ms, more :: WellFormed(ms) && Carry(frames + more, AllMarkers(ms))
  {
    hide Flag, Carry, WellFormed, AllMarkers;
    if Flag(frames).Some? {
      BeginsMessages(frames);
    }
    if exists ms, more :: WellFormed(ms) && Carry(frames + more, AllMarkers(ms)) {
      var ms, more :| WellFormed(ms) && Carry(frames + more, AllMarkers(ms));
      MessagesAccepted(frames + more, ms);
      FlagOfPrefix(frames + more, |frames|);
      assert (frames + more)[..|frames|] == frames;
    }
  }

  lemma BeginsMessages(frames: seq<Bytes>)
    requires Flag(frames).Some?
    ensures exists ms, more :: WellFormed(ms) && Carry(frames + more, AllMarkers(ms))
  {
    hide Flag;
    var ms, open := AcceptedParse(frames);
    if Flag(frames).value {
      var all := Closed(ms, open);
      OpenGrows(ms, open);
      assert Carry(frames + [[5]], AllMarkers(all));
    } else {
      assert frames + [] == frames;
      assert Carry(frames + [], AllMarkers(ms));
    }
  }

  // ------------------------------------------------------------------------------------------ runs

  /** One direction: frames sealed so far, boxes under way, frames opened so far. */
  datatype Channel = Channel(sent: seq<Bytes>, flight: seq<Bytes>, delivered: seq<Bytes>)

  datatype Pair = Pair(a: Session, b: Session, ab: Channel, ba: Channel)

  datatype Action = Send(byA: bool, frame: Bytes, capacity: nat) | Deliver(toA: bool, capacity: nat)

  /** Encrypting a frame puts its box on the channel; a refused frame fails the sender. */
  function SendOn(c: Crypto, s: Session, ch: Channel, frame: Bytes, capacity: nat): (Session, Channel) {
    var (s', r) := Encrypt(c, s, frame, capacity);
    if r.rc == OK then (s', ch.(sent := ch.sent + [frame], flight := ch.flight + [r.bytes])) else (s', ch)
  }

  /** The oldest box under way reaches the receiver. */
  function DeliverFrom(c: Crypto, s: Session, ch: Channel, capacity: nat): (Session, Channel) {
    if ch.flight == [] then (s, ch)
    else
      var (s', r) := Decrypt(c, s, ch.flight[0], capacity);
      (s', ch.(flight := ch.flight[1..], delivered := if r.rc == OK then ch.delivered + [r.bytes] else ch.delivered))
  }

  function Act(c: Crypto, p: Pair, x: Action): Pair {
    match x
    case Send(byA, frame, capacity) =>
      if byA then
        var (s, ch) := SendOn(c, p.a, p.ab, frame, capacity);
        p.(a := s, ab := ch)
      else
        var (s, ch) := SendOn(c, p.b, p.ba, frame, capacity);
        p.(b := s, ba := ch)
    case Deliver(toA, capacity) =>
      if toA then
        var (s, ch) := DeliverFrom(c, p.a, p.ba, capacity);
        p.(a := s, ba := ch)
      else
        var (s, ch) := DeliverFrom(c, p.b, p.ab, capacity);
        p.(b := s, ab := ch)
  }

  function RunPair(c: Crypto, p: Pair, xs: seq<Action>): Pair
    decreases |xs|
  {
    if xs == [] then p else RunPair(c, Act(c, p, xs[0]), xs[1..])
  }

  const EMPTY: Channel := Channel([], [], [])

  // ------------------------------------------------------------------- what one direction maintains

  /** The box that carries frame number i under this key: the counter is the frame's position. */
  ghost predicate IsBox(c: Crypto, key: Bytes, box: Bytes, frame: Bytes, i: int) {
    0 <= i < NONCE_LIMIT as int && box == c.aeadSeal(key, NonceBytes(i as uint64), [], frame)
  }

  ghost predicate ChannelSound(c: Crypto, key: Bytes, ch: Channel) {
    && |ch.delivered| <= |ch.sent| <= NONCE_LIMIT as int && ch.delivered == ch.sent[..|ch.delivered|]
    && Flag(ch.sent).Some? && (forall i :: 0 <= i < |ch.sent| ==> 1 <= |ch.sent[i]| <= CHUNK_SIZE + 1)
  }

  ghost predicate SenderMatches(key: Bytes, s: Session, ch: Channel) {
    s == FAILED ||
    (s.ready && !s.failed && s.sendKey == key && s.sendNonce as int == |ch.sent| && Flag(ch.sent) == Some(s.sendChunked))
  }

  ghost predicate ReceiverMatches(c: Crypto, key: Bytes, s: Session, ch: Channel) {
    s == FAILED ||
    (&& s.ready && !s.failed && s.receiveKey == key && s.receiveNonce as int == |ch.delivered|
     && Flag(ch.delivered) == Some(s.receiveChunked)
     && |ch.sent| == |ch.delivered| + |ch.flight|
     && forall j {:trigger ch.flight[j]} :: 0 <= j < |ch.flight| ==>
          IsBox(c, key, ch.flight[j], ch.sent[|ch.delivered| + j], |ch.delivered| + j))
  }

  /** The key and state a session keeps for the direction an action does not touch. */
  ghost predicate SameSending(s: Session, s': Session) {
    s' == FAILED || (s'.ready && !s'.failed && s'.sendKey == s.sendKey && s'.sendNonce == s.sendNonce && s'.sendChunked == s.sendChunked)
  }

  ghost predicate SameReceiving(s: Session, s': Session) {
    s' == FAILED || (s'.ready && !s'.failed && s'.receiveKey == s.receiveKey && s'.receiveNonce == s.receiveNonce
                     && s'.receiveChunked == s.receiveChunked)
  }

  lemma SendKeeps(c: Crypto, key: Bytes, s: Session, r: Session, ch: Channel, frame: Bytes, capacity: nat)
    requires Lawful(c) && ChannelSound(c, key, ch) && SenderMatches(key, s, ch) && ReceiverMatches(c, key, r, ch)
    ensures var (s', ch') := SendOn(c, s, ch, frame, capacity);
            && ChannelSound(c, key, ch') && SenderMatches(key, s', ch') && ReceiverMatches(c, key, r, ch')
            && (s != FAILED ==> SameReceiving(s, s')) && (s == FAILED ==> s' == FAILED)
  {
    hide ReceiverMatches;
    var (s', ch') := SendOn(c, s, ch, frame, capacity);
    if ch' != ch {
      assert ch'.sent[..|ch.sent|] == ch.sent;
      assert ch'.sent[..|ch.delivered|] == ch.delivered;
      var box := Encrypt(c, s, frame, capacity).1.bytes;
      assert IsBox(c, key, box, frame, |ch.sent|);
      BoxJoins(c, key, r, ch, frame, box);
    }
  }

  /** A new box goes to the end of the queue. */
  lemma BoxJoins(c: Crypto, key: Bytes, r: Session, ch: Channel, frame: Bytes, box: Bytes)
    requires ReceiverMatches(c, key, r, ch) && |ch.delivered| <= |ch.sent| && IsBox(c, key, box, frame, |ch.sent|)
    ensures ReceiverMatches(c, key, r, ch.(sent := ch.sent + [frame], flight := ch.flight + [box]))
  {
    hide IsBox, Flag;
    var after := ch.(sent := ch.sent + [frame], flight := ch.flight + [box]);
    if r != FAILED {
      forall j | 0 <= j < |after.flight|
        ensures IsBox(c, key, after.flight[j], after.sent[|ch.delivered| + j], |ch.delivered| + j)
      {
        if j < |ch.flight| {
          assert after.flight[j] == ch.flight[j];
        }
      }
    }
  }

  /** Given room for it, the oldest box opens to the next frame sent. */
  lemma NextFrameOpens(c: Crypto, key: Bytes, r: Session, ch: Channel, capacity: nat)
    requires Lawful(c) && ChannelSound(c, key, ch) && ReceiverMatches(c, key, r, ch) && r != FAILED && ch.flight != []
    ensures var next := ch.sent[|ch.delivered|];
            && Decrypt(c, r, ch.flight[0], capacity).1 == (if capacity < |next| then Reply(ERR_NOMEM, []) else Reply(OK, next))
            && Flag(ch.sent[..|ch.delivered| + 1]).Some?
  {
    var n := |ch.delivered|;
    var next := ch.sent[n];
    assert IsBox(c, key, ch.flight[0], ch.sent[n + 0], n + 0);
    assert Unseal(c, r.receiveKey, r.receiveNonce, [], ch.flight[0]) == Some(next);
    FlagOfPrefix(ch.sent, n + 1);
    FlagSnoc(ch.sent, n);
  }

  /** The boxes left under way are the following frames. */
  lemma FlightShifts(c: Crypto, key: Bytes, r: Session, ch: Channel)
    requires ReceiverMatches(c, key, r, ch) && r != FAILED && ch.flight != []
    ensures var n := |ch.delivered| + 1;
            forall j {:trigger ch.flight[1..][j]} :: 0 <= j < |ch.flight[1..]| ==>
              IsBox(c, key, ch.flight[1..][j], ch.sent[n + j], n + j)
  {
    var n := |ch.delivered| + 1;
    forall j | 0 <= j < |ch.flight[1..]|
      ensures IsBox(c, key, ch.flight[1..][j], ch.sent[n + j], n + j)
    {
      assert ch.flight[1..][j] == ch.flight[j + 1];
    }
  }

  lemma DeliverKeeps(c: Crypto, key: Bytes, s: Session, r: Session, ch: Channel, capacity: nat)
    requires Lawful(c) && ChannelSound(c, key, ch) && SenderMatches(key, s, ch) && ReceiverMatches(c, key, r, ch)
    ensures var (r', ch') := DeliverFrom(c, r, ch, capacity);
            && ChannelSound(c, key, ch') && SenderMatches(key, s, ch') && ReceiverMatches(c, key, r', ch')
            && (r != FAILED ==> SameSending(r, r')) && (r == FAILED ==> r' == FAILED)
  {
    hide IsBox, Flag, Lawful;
    if ch.flight != [] && r != FAILED {
      NextFrameOpens(c, key, r, ch, capacity);
      FlightShifts(c, key, r, ch);
      var n := |ch.delivered|;
      FlagSnoc(ch.sent, n);
      assert ch.sent[..n] + [ch.sent[n]] == ch.sent[..n + 1];
    }
  }

  // -------------------------------------------------------------------------------------- both ways

  ghost predicate PairSound(c: Crypto, k: Bytes, l: Bytes, p: Pair) {
    && ChannelSound(c, k, p.ab) && SenderMatches(k, p.a, p.ab) && ReceiverMatches(c, k, p.b, p.ab)
    && ChannelSound(c, l, p.ba) && SenderMatches(l, p.b, p.ba) && ReceiverMatches(c, l, p.a, p.ba)
  }

  lemma ActKeeps(c: Crypto, k: Bytes, l: Bytes, p: Pair, x: Action)
    requires Lawful(c) && PairSound(c, k, l, p)
    ensures PairSound(c, k, l, Act(c, p, x))
  {
    match x
    case Send(byA, frame, capacity) =>
      if byA {
        SendKeeps(c, k, p.a, p.b, p.ab, frame, capacity);
      } else {
        SendKeeps(c, l, p.b, p.a, p.ba, frame, capacity);
      }
    case Deliver(toA, capacity) =>
      if toA {
        DeliverKeeps(c, l, p.b, p.a, p.ba, capacity);
      } else {
        DeliverKeeps(c, k, p.a, p.b, p.ab, capacity);
      }
  }

  lemma {:induction false} RunPairKeeps(c: Crypto, k: Bytes, l: Bytes, p: Pair, xs: seq<Action>)
    requires Lawful(c) && PairSound(c, k, l, p)
    ensures PairSound(c, k, l, RunPair(c, p, xs))
    decreases |xs|
  {
    if xs != [] {
      ActKeeps(c, k, l, p, xs[0]);
      RunPairKeeps(c, k, l, Act(c, p, xs[0]), xs[1..]);
    }
  }

  /** Every run of a linked pair: what arrives is a prefix of what was sent, and the counters account for the rest. */
  lemma FramesArriveInOrder(c: Crypto, a: Session, b: Session, xs: seq<Action>)
    requires Lawful(c) && Linked(a, b)
    ensures var p := RunPair(c, Pair(a, b, EMPTY, EMPTY), xs);
            && p.ab.delivered <= p.ab.sent && p.ba.delivered <= p.ba.sent
            && Flag(p.ab.sent).Some? && Flag(p.ba.sent).Some?
            && (p.a != FAILED && p.b != FAILED ==>
                  && p.a.sendNonce as int == p.b.receiveNonce as int + |p.ab.flight|
                  && p.b.sendNonce as int == p.a.receiveNonce as int + |p.ba.flight|
                  && (p.ab.flight == [] ==> p.a.sendChunked == p.b.receiveChunked)
                  && (p.ba.flight == [] ==> p.b.sendChunked == p.a.receiveChunked))
  {
    var p0 := Pair(a, b, EMPTY, EMPTY);
    RunPairKeeps(c, a.sendKey, b.sendKey, p0, xs);
    var p := RunPair(c, p0, xs);
    if p.a != FAILED && p.b != FAILED {
      assert p.ab.flight == [] ==> p.ab.delivered == p.ab.sent;
      assert p.ba.flight == [] ==> p.ba.delivered == p.ba.sent;
    }
  }

  // ---------------------------------------------------------------------------------------- nonces

  /** Different counters give different nonces, so no two boxes under a key ever share one. */
  lemma NonceInjective(m: uint64, n: uint64)
    requires NonceBytes(m) == NonceBytes(n)
    ensures m == n
  {
    hide BigEndian;
    EightBytes();
    assert BigEndian(m as nat, 8) == NonceBytes(m)[4..] && BigEndian(n as nat, 8) == NonceBytes(n)[4..];
    BigEndianInjective(m as nat, n as nat, 8);
  }
}
