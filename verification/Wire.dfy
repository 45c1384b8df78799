/** A hive message as JSON: written by the serializer, read back by the parser. */
module Wire {
  import opened Status
  import opened JsonText
  import opened JsonTree
  import opened JsonParser
  import opened JsonScan
  import opened JsonAgree
  import opened JsonTokens
  import opened JsonPrint
  import opened JsonGrammar
  import opened JsonEscape
  import opened JsonMembers

  const MAX_TOKENS: nat := 256
  const MSG_TYPE_MAX: nat := 32
  const NODE_MAX: nat := 96
  const SITE_ID_MAX: nat := 64
  const PUBLIC_KEY_MAX: nat := 256

  datatype Optional = Absent | Present(text: string)

  /** A message; its payload, metadata and route are JSON texts. */
  datatype Message = Message(msgType: string, payload: Optional, metadata: Optional, route: Optional,
                             node: Optional, targetSite: Optional, targetKey: Optional, sourcePeer: Optional)

  function Raw(o: Optional, default: string): string {
    if o.Present? then o.text else default
  }

  function Quote(o: Optional): string {
    if o.Present? then Literal(o.text) else "null"
  }

  // ------------------------------------------------------------------------------- serializing

  /** The text of a message. */
  function Frame(m: Message): string {
    Bodies(m) + Routing(m)
  }

  function Bodies(m: Message): string {
    "{\"msg_type\":" + Literal(m.msgType) + ",\"payload\":" + Raw(m.payload, "{}")
    + ",\"metadata\":" + Raw(m.metadata, "{}") + ",\"route\":" + Raw(m.route, "[]")
  }

  function Routing(m: Message): string {
    ",\"node\":" + Quote(m.node) + ",\"target_site_id\":" + Quote(m.targetSite)
    + ",\"target_pubkey\":" + Quote(m.targetKey) + ",\"source_peer\":" + Quote(m.sourcePeer) + "}"
  }

  /** A label and the piece behind it, when both fit. */
  method AppendRaw(out: array<char>, pos: nat, lead: string, piece: string) returns (rc: int, end: nat)
    requires pos <= out.Length
    modifies out
    ensures pos < out.Length ==> rc == if pos + |lead| + |piece| + 1 <= out.Length then 0 else ERR_NOMEM
    ensures rc == 0 ==> end == pos + |lead| + |piece| < out.Length && out[..end] == old(out[..pos]) + lead + piece
    ensures rc == 0 || rc == ERR_NOMEM
  {
    rc, end := Append(out, pos, lead);
    if rc == 0 {
      rc, end := Append(out, end, piece);
    }
  }

  method AppendQuoted(out: array<char>, pos: nat, lead: string, value: Optional) returns (rc: int, end: nat)
    requires pos <= out.Length
    modifies out
    ensures pos < out.Length ==> rc == if pos + |lead| + |Quote(value)| + 1 <= out.Length then 0 else ERR_NOMEM
    ensures rc == 0 ==>
      end == pos + |lead| + |Quote(value)| < out.Length && out[..end] == old(out[..pos]) + lead + Quote(value)
    ensures rc == 0 || rc == ERR_NOMEM
  {
    rc, end := Append(out, pos, lead);
    if rc == 0 {
      match value
      case Absent => rc, end := Append(out, end, "null");
      case Present(text) => rc, end := AppendJsonRange(out, end, text);
    }
  }

  method Serialize(m: Message, out: array<char>) returns (rc: int)
    modifies out
    ensures rc == if out.Length == 0 then ERR_INVALID
                  else if |Frame(m)| + 1 <= out.Length then |Frame(m)| else ERR_NOMEM
    ensures rc >= 0 ==> out[..rc] == Frame(m)
  {
    if out.Length == 0 {
      return ERR_INVALID;
    }
    hide Bodies, Routing;
    var pos;
    rc, pos := AppendBodies(m, out);
    if rc != 0 { return; }
    rc, pos := AppendRouting(m, out, pos);
    if rc != 0 { return; }
    rc := pos;
  }

  method AppendBodies(m: Message, out: array<char>) returns (rc: int, end: nat)
    requires out.Length > 0
    modifies out
    ensures rc == if |Bodies(m)| + 1 <= out.Length then 0 else ERR_NOMEM
    ensures rc == 0 ==> end == |Bodies(m)| && out[..end] == Bodies(m)
  {
    hide Literal, Quote, Raw;
    QuoteOf(m.msgType);
    rc, end := AppendQuoted(out, 0, "{\"msg_type\":", Present(m.msgType));
    if rc != 0 { return; }
    ghost var first := "{\"msg_type\":" + Literal(m.msgType);
    assert out[..end] == first;
    rc, end := AppendRaw(out, end, ",\"payload\":", Raw(m.payload, "{}"));
    if rc != 0 { return; }
    ghost var second := first + ",\"payload\":" + Raw(m.payload, "{}");
    assert out[..end] == second;
    rc, end := AppendRaw(out, end, ",\"metadata\":", Raw(m.metadata, "{}"));
    if rc != 0 { return; }
    rc, end := AppendRaw(out, end, ",\"route\":", Raw(m.route, "[]"));
  }

  method AppendRouting(m: Message, out: array<char>, pos: nat) returns (rc: int, end: nat)
    requires pos < out.Length
    modifies out
    ensures rc == if pos + |Routing(m)| + 1 <= out.Length then 0 else ERR_NOMEM
    ensures rc == 0 ==> end == pos + |Routing(m)| && out[..end] == old(out[..pos]) + Routing(m)
  {
    hide Quote;
    ghost var done := out[..pos];
    rc, end := AppendQuoted(out, pos, ",\"node\":", m.node);
    if rc != 0 { return; }
    ghost var n := ",\"node\":" + Quote(m.node);
    Joined(done, ",\"node\":", Quote(m.node));
    rc, end := AppendQuoted(out, end, ",\"target_site_id\":", m.targetSite);
    if rc != 0 { return; }
    ghost var s := n + ",\"target_site_id\":" + Quote(m.targetSite);
    Grown(done, n, ",\"target_site_id\":", Quote(m.targetSite));
    rc, end := AppendQuoted(out, end, ",\"target_pubkey\":", m.targetKey);
    if rc != 0 { return; }
    ghost var k := s + ",\"target_pubkey\":" + Quote(m.targetKey);
    Grown(done, s, ",\"target_pubkey\":", Quote(m.targetKey));
    rc, end := AppendQuoted(out, end, ",\"source_peer\":", m.sourcePeer);
    if rc != 0 { return; }
    ghost var p := k + ",\"source_peer\":" + Quote(m.sourcePeer);
    Grown(done, k, ",\"source_peer\":", Quote(m.sourcePeer));
    rc, end := Append(out, end, "}");
    Joined(done, p, "}");
  }

  lemma Joined(a: string, b: string, c: string)
    ensures a + b + c == a + (b + c)
  {
  }

  lemma Grown(a: string, b: string, c: string, d: string)
    ensures a + b + c + d == a + (b + c + d)
  {
  }

  lemma QuoteOf(text: string)
    ensures Quote(Present(text)) == Literal(text)
  {
  }

  // ------------------------------------------------------------------------------- parsing

  /** A stretch of the text, quotes included for a string. */
  datatype Span = NoSpan | Span(start: int, end: int)

  datatype Parsed = Failed(rc: int)
    | Parsed(msgType: string, payload: Span, metadata: Span,
             node: Optional, targetSite: Optional, targetKey: Optional, sourcePeer: Optional)

  datatype Copied = Refusal(rc: int) | Copied(field: Optional)

  /** Every string token closes where the string scanner says. */
  ghost predicate StringsClose(js: string, ts: seq<Token>) {
    forall k :: 0 <= k < |ts| && ts[k].kind == String ==>
      0 <= ts[k].start <= ts[k].end < |js| && StringEnd(js, ts[k].start) == CloseAt(ts[k].end)
  }

  lemma AcceptedStringsClose(js: string, room: nat)
    requires ParseDocument(js, room).Accepted?
    ensures StringsClose(js, Flatten(ParseDocument(js, room).root, -1, 0))
  {
    hide Scan, ScansTo, StringEnd, Reported;
    ScannerAgrees(js, room);
    var ts := Flatten(ParseDocument(js, room).root, -1, 0);
    assert forall k :: 0 <= k < |ts| ==> ScansTo(js, Flatten(ParseDocument(js, room).root, -1, 0)[k]);
    forall k | 0 <= k < |ts| && ts[k].kind == String
      ensures 0 <= ts[k].start <= ts[k].end < |js| && StringEnd(js, ts[k].start) == CloseAt(ts[k].end)
    {
      assert ScansTo(js, ts[k]);
      ScannedString(js, ts[k]);
    }
  }

  lemma ScannedString(js: string, tok: Token)
    requires ScansTo(js, tok) && tok.kind == String
    ensures 0 <= tok.start <= tok.end < |js| && StringEnd(js, tok.start) == CloseAt(tok.end)
  {
    hide Walk, StringEnd;
    StringEndRange(js, tok.start);
  }

  lemma StringEndRange(js: string, i: nat)
    requires i <= |js|
    ensures match StringEnd(js, i) case NoClose => true case CloseAt(e) => i <= e < |js|
  {
  }

  ghost function SpanAt(js: string, ts: seq<Token>, name: string): Span {
    var got := ObjectGet(js, ts, 0, name);
    if got < 0 || got >= |ts| then NoSpan
    else if ts[got].kind == String then Span(ts[got].start - 1, ts[got].end + 1)
    else Span(ts[got].start, ts[got].end)
  }

  /** A field that may be absent, null or something else than a string, all of which leave it unset. */
  ghost function Field(js: string, ts: seq<Token>, name: string, room: nat): Copied
    requires StringsClose(js, ts)
  {
    var got := ObjectGet(js, ts, 0, name);
    if got < 0 || got >= |ts| || ts[got].kind != String then Copied(Absent)
    else
      match Unescape(js, ts[got].start, ts[got].end, room)
      case Fault(rc) => Refusal(rc)
      case Text(s) => Copied(Present(s))
  }

  ghost function ReadTokens(js: string, ts: seq<Token>): Parsed
    requires StringsClose(js, ts) && |ts| > 0
  {
    if ts[0].kind != Object then Failed(ERR_JSON)
    else
      match Field(js, ts, "msg_type", MSG_TYPE_MAX)
      case Refusal(rc) => Failed(rc)
      case Copied(Absent) => Failed(ERR_MISSING)
      case Copied(Present(msgType)) =>
        var payload, metadata := SpanAt(js, ts, "payload"), SpanAt(js, ts, "metadata");
        match Field(js, ts, "node", NODE_MAX)
        case Refusal(rc) => Failed(rc)
        case Copied(node) =>
          match Field(js, ts, "target_site_id", SITE_ID_MAX)
          case Refusal(rc) => Failed(rc)
          case Copied(site) =>
            match Field(js, ts, "target_pubkey", PUBLIC_KEY_MAX)
            case Refusal(rc) => Failed(rc)
            case Copied(key) =>
              match Field(js, ts, "source_peer", NODE_MAX)
              case Refusal(rc) => Failed(rc)
              case Copied(peer) => Parsed(msgType, payload, metadata, node, site, key, peer)
  }

  ghost function ParseFrame(js: string): Parsed {
    match ParseDocument(js, MAX_TOKENS)
    case Refused(rc) => Failed(rc)
    case Accepted(root) =>
      AcceptedStringsClose(js, MAX_TOKENS);
      ReadTokens(js, Flatten(root, -1, 0))
  }

  lemma {:induction false} LookupInRange(js: string, ts: seq<Token>, child: int, n: int, name: string)
    requires 0 <= child
    ensures var got := Lookup(js, ts, child, n, name); got == ERR_MISSING || 0 <= got < |ts|
    decreases if n > 0 then n else 0
  {
    if n > 0 && child < |ts| && !(Named(js, ts[child], name) && child + 1 < |ts|) {
      LookupInRange(js, ts, Skip(ts, child), n - 1, name);
    }
  }

  lemma GetInRange(js: string, ts: seq<Token>, name: string)
    ensures var got := ObjectGet(js, ts, 0, name); got == ERR_MISSING || 0 <= got < |ts|
  {
    if |ts| > 0 {
      LookupInRange(js, ts, 1, ts[0].size, name);
    }
  }

  method CopyField(js: string, toks: array<Token>, count: nat, name: string, room: nat) returns (r: Copied)
    requires 0 < count <= toks.Length && StringsClose(js, toks[..count]) && room > 0
    ensures r == Field(js, toks[..count], name, room) && (r.Refusal? ==> r.rc < 0)
  {
    hide ObjectGet, Unescape, StringEnd;
    GetInRange(js, toks[..count], name);
    ghost var ts := toks[..count];
    var got := ObjectGetAt(js, toks, count, 0, name);
    if got < 0 || toks[got].kind != String {
      return Copied(Absent);
    }
    assert ts[got] == toks[got];
    FaultsNegative(js, toks[got].start, toks[got].end, room);
    var buffer := new char[room](_ => '\0');
    var n := UnescapeAt(js, toks[got].start, toks[got].end, buffer);
    if n < 0 {
      return Refusal(n);
    }
    r := Copied(Present(buffer[..n]));
  }

  lemma {:induction false} FaultsNegative(t: string, i: nat, end: nat, room: nat)
    requires i <= end < |t| && StringEnd(t, i) == CloseAt(end)
    ensures Unescape(t, i, end, room).Fault? ==> Unescape(t, i, end, room).rc < 0
    decreases end - i
  {
    hide DecodeStep, StringEnd;
    if i < end && DecodeStep(t, i, end).Step? {
      StepStays(t, i, end);
      var step := DecodeStep(t, i, end);
      if |step.bytes| < room {
        FaultsNegative(t, step.next, end, room - |step.bytes|);
      }
    }
  }

  method CopySpan(js: string, toks: array<Token>, count: nat, name: string) returns (s: Span)
    requires 0 < count <= toks.Length
    ensures s == SpanAt(js, toks[..count], name)
  {
    hide ObjectGet;
    GetInRange(js, toks[..count], name);
    var got := ObjectGetAt(js, toks, count, 0, name);
    if got < 0 {
      return NoSpan;
    }
    s := if toks[got].kind == String then Span(toks[got].start - 1, toks[got].end + 1)
         else Span(toks[got].start, toks[got].end);
  }

  method Read(js: string) returns (r: Parsed)
    ensures |js| > INT_MAX ==> r == Failed(ERR_INVALID)
    ensures |js| <= INT_MAX ==> r == ParseFrame(js)
  {
    hide ParseDocument, Flatten, Field, SpanAt;
    var toks := new Token[MAX_TOKENS](_ => Token(Primitive, 0, 0, 0, -1));
    var count := JsonParser.Parse(js, toks, MAX_TOKENS);
    RefusalsNegative(js, MAX_TOKENS);
    if count < 0 {
      return Failed(count);
    }
    AcceptedStringsClose(js, MAX_TOKENS);
    if toks[0].kind != Object {
      return Failed(ERR_JSON);
    }
    var msgType := CopyField(js, toks, count, "msg_type", MSG_TYPE_MAX);
    if msgType.Refusal? { return Failed(msgType.rc); }
    if msgType.field.Absent? { return Failed(ERR_MISSING); }
    var payload := CopySpan(js, toks, count, "payload");
    var metadata := CopySpan(js, toks, count, "metadata");
    var node := CopyField(js, toks, count, "node", NODE_MAX);
    if node.Refusal? { return Failed(node.rc); }
    var site := CopyField(js, toks, count, "target_site_id", SITE_ID_MAX);
    if site.Refusal? { return Failed(site.rc); }
    var key := CopyField(js, toks, count, "target_pubkey", PUBLIC_KEY_MAX);
    if key.Refusal? { return Failed(key.rc); }
    var peer := CopyField(js, toks, count, "source_peer", NODE_MAX);
    if peer.Refusal? { return Failed(peer.rc); }
    r := Parsed(msgType.field.text, payload, metadata, node.field, site.field, key.field, peer.field);
  }

  lemma RefusalsNegative(js: string, room: nat)
    ensures ParseDocument(js, room).Refused? ==> ParseDocument(js, room).rc < 0
  {
  }

  // ------------------------------------------------------------------------------- there and back

  function Member(name: string, value: Json): Entry {
    Entry("", name, "", "", value, "")
  }

  function Scalar(o: Optional): Json {
    if o.Present? then Quoted(EscapeAll(o.text)) else Word("null")
  }

  /** The three JSON texts of a message, as documents. */
  datatype Texts = Texts(payload: Json, metadata: Json, route: Json)

  function Members(m: Message, d: Texts): (es: seq<Entry>)
    ensures |es| == 8
  {
    [Member("msg_type", Quoted(EscapeAll(m.msgType))), Member("payload", d.payload), Member("metadata", d.metadata),
     Member("route", d.route), Member("node", Scalar(m.node)), Member("target_site_id", Scalar(m.targetSite)),
     Member("target_pubkey", Scalar(m.targetKey)), Member("source_peer", Scalar(m.sourcePeer))]
  }

  function Document(m: Message, d: Texts): Json {
    Box(true, "", Members(m, d))
  }

  ghost predicate Spelled(m: Message, d: Texts) {
    && Print(d.payload) == Raw(m.payload, "{}") && Print(d.metadata) == Raw(m.metadata, "{}")
    && Print(d.route) == Raw(m.route, "[]")
  }

  ghost predicate Sound(v: Json) {
    WellFormed(v) && Height(v) < MAX_DEPTH
  }

  function Line(name: string, text: string): string {
    "\"" + name + "\":" + text
  }

  lemma MemberPrints(name: string, v: Json)
    ensures PrintEntry(true, Member(name, v)) == Line(name, Print(v))
  {
    hide Print;
    var q := "\"" + name + "\"";
    assert "" + (q + "" + ":") + "" + Print(v) + "" == q + ":" + Print(v);
  }

  lemma EntriesFrom(es: seq<Entry>, i: nat, text: string)
    requires i < |es| && PrintEntry(true, es[i]) == text
    ensures PrintEntries(true, es[i..])
         == if i + 1 == |es| then text else text + ("," + PrintEntries(true, es[i + 1..]))
  {
    hide PrintEntry;
    assert es[i..][1..] == es[i + 1..];
    assert i + 1 == |es| ==> text + "" == text;
  }

  lemma ScalarPrints(o: Optional)
    ensures Print(Scalar(o)) == Quote(o) && WellFormed(Scalar(o)) && Height(Scalar(o)) == 0
  {
    if o.Present? {
      EscapedIsBody(o.text);
    } else {
      assert CheckPrimitive("null");
    }
  }

  /** The members from the fifth on. */
  lemma RoutingPrints(m: Message, d: Texts)
    ensures "," + PrintEntries(true, Members(m, d)[4..]) + "}" == Routing(m)
  {
    hide Print, PrintEntries, PrintEntry, Quote, Scalar, Line;
    var es := Members(m, d);
    var n, s, k, p := Quote(m.node), Quote(m.targetSite), Quote(m.targetKey), Quote(m.sourcePeer);
    var ln, ls, lk, lp := Line("node", n), Line("target_site_id", s), Line("target_pubkey", k), Line("source_peer", p);
    MemberLines(m, d);
    EntriesFrom(es, 4, ln);
    EntriesFrom(es, 5, ls);
    EntriesFrom(es, 6, lk);
    EntriesFrom(es, 7, lp);
    Chained(ln, ls, lk, lp);
    Labels(n, s, k, p);
  }

  lemma MemberLines(m: Message, d: Texts)
    ensures var es := Members(m, d);
            && PrintEntry(true, es[4]) == Line("node", Quote(m.node))
            && PrintEntry(true, es[5]) == Line("target_site_id", Quote(m.targetSite))
            && PrintEntry(true, es[6]) == Line("target_pubkey", Quote(m.targetKey))
            && PrintEntry(true, es[7]) == Line("source_peer", Quote(m.sourcePeer))
  {
    hide Print, PrintEntry, Quote, Scalar, Line;
    ScalarPrints(m.node);
    ScalarPrints(m.targetSite);
    ScalarPrints(m.targetKey);
    ScalarPrints(m.sourcePeer);
    MemberPrints("node", Scalar(m.node));
    MemberPrints("target_site_id", Scalar(m.targetSite));
    MemberPrints("target_pubkey", Scalar(m.targetKey));
    MemberPrints("source_peer", Scalar(m.sourcePeer));
  }

  lemma Labels(n: string, s: string, k: string, p: string)
    ensures ("," + Line("node", n)) + ("," + Line("target_site_id", s)) + ("," + Line("target_pubkey", k))
            + ("," + Line("source_peer", p)) + "}"
         == ",\"node\":" + n + ",\"target_site_id\":" + s + ",\"target_pubkey\":" + k + ",\"source_peer\":" + p + "}"
  {
    hide Line;
    LabelIs("node", n, ",\"node\":");
    LabelIs("target_site_id", s, ",\"target_site_id\":");
    LabelIs("target_pubkey", k, ",\"target_pubkey\":");
    LabelIs("source_peer", p, ",\"source_peer\":");
    Ungroup(",\"node\":", n, ",\"target_site_id\":", s, ",\"target_pubkey\":", k, ",\"source_peer\":", p, "}");
  }

  lemma LabelIs(name: string, text: string, lead: string)
    requires lead == ",\"" + name + "\":"
    ensures "," + Line(name, text) == lead + text
  {
  }

  lemma Ungroup(a: string, n: string, b: string, s: string, c: string, k: string, e: string, p: string, f: string)
    ensures (a + n) + (b + s) + (c + k) + (e + p) + f == a + n + b + s + c + k + e + p + f
  {
  }

  lemma Chained(a: string, b: string, c: string, e: string)
    ensures "," + (a + ("," + (b + ("," + (c + ("," + e)))))) + "}"
         == ("," + a) + ("," + b) + ("," + c) + ("," + e) + "}"
  {
  }

  /** The first four members, and the text of the whole message. */
  lemma FramePrints(m: Message, d: Texts)
    requires Spelled(m, d)
    ensures Print(Document(m, d)) == Frame(m)
  {
    hide Print, PrintEntries, PrintEntry, Quote, Scalar, Line, Literal, Raw, Routing, Members;
    var t, p, q, r := Literal(m.msgType), Raw(m.payload, "{}"), Raw(m.metadata, "{}"), Raw(m.route, "[]");
    var lt, lp, lq, lr := Line("msg_type", t), Line("payload", p), Line("metadata", q), Line("route", r);
    HeadPrints(m, d, lt, lp, lq, lr);
    RoutingPrints(m, d);
    HeadLabels(t, p, q, r);
    DocumentPrints(m, d);
    HeadChained(lt, lp, lq, lr, PrintEntries(true, Members(m, d)[4..]));
  }

  lemma DocumentPrints(m: Message, d: Texts)
    ensures Print(Document(m, d)) == "{" + PrintEntries(true, Members(m, d)) + "}"
  {
    hide PrintEntries;
  }

  lemma HeadPrints(m: Message, d: Texts, lt: string, lp: string, lq: string, lr: string)
    requires Spelled(m, d) && lt == Line("msg_type", Literal(m.msgType)) && lp == Line("payload", Raw(m.payload, "{}"))
    requires lq == Line("metadata", Raw(m.metadata, "{}")) && lr == Line("route", Raw(m.route, "[]"))
    ensures var es := Members(m, d);
            PrintEntries(true, es) ==
            lt + ("," + (lp + ("," + (lq + ("," + (lr + ("," + PrintEntries(true, es[4..]))))))))
  {
    hide PrintEntries, PrintEntry, Scalar, Line, Raw;
    var es := Members(m, d);
    MemberPrints("msg_type", Quoted(EscapeAll(m.msgType)));
    MemberPrints("payload", d.payload);
    MemberPrints("metadata", d.metadata);
    MemberPrints("route", d.route);
    EntriesFrom(es, 0, lt);
    EntriesFrom(es, 1, lp);
    EntriesFrom(es, 2, lq);
    EntriesFrom(es, 3, lr);
    assert es[0..] == es;
  }

  lemma HeadChained(a: string, b: string, c: string, e: string, rest: string)
    ensures "{" + (a + ("," + (b + ("," + (c + ("," + (e + ("," + rest)))))))) + "}"
         == ("{" + a) + ("," + b) + ("," + c) + ("," + e) + ("," + rest + "}")
  {
  }

  lemma HeadLabels(t: string, p: string, q: string, r: string)
    ensures ("{" + Line("msg_type", t)) + ("," + Line("payload", p)) + ("," + Line("metadata", q)) + ("," + Line("route", r))
         == "{\"msg_type\":" + t + ",\"payload\":" + p + ",\"metadata\":" + q + ",\"route\":" + r
  {
    hide Line;
    FirstLabelIs("msg_type", t, "{\"msg_type\":");
    LabelIs("payload", p, ",\"payload\":");
    LabelIs("metadata", q, ",\"metadata\":");
    LabelIs("route", r, ",\"route\":");
    Ungroup("{\"msg_type\":", t, ",\"payload\":", p, ",\"metadata\":", q, ",\"route\":", r, "");
  }

  lemma FirstLabelIs(name: string, text: string, lead: string)
    requires lead == "{\"" + name + "\":"
    ensures "{" + Line(name, text) == lead + text
  {
  }

  lemma {:induction false} HeightsBound(es: seq<Entry>, h: nat)
    requires forall i :: 0 <= i < |es| ==> 1 + Height(es[i].value) <= h
    ensures Heights(es) <= h
  {
    if es != [] {
      HeightsBound(es[1..], h);
    }
  }

  lemma DocumentSound(m: Message, d: Texts)
    requires Sound(d.payload) && Sound(d.metadata) && Sound(d.route)
    ensures WellFormed(Document(m, d)) && Height(Document(m, d)) <= MAX_DEPTH
  {
    hide Height, WellFormed, Heights;
    var es := Members(m, d);
    ScalarPrints(Present(m.msgType));
    ScalarPrints(m.node);
    ScalarPrints(m.targetSite);
    ScalarPrints(m.targetKey);
    ScalarPrints(m.sourcePeer);
    HeightsBound(es, MAX_DEPTH);
    forall i | 0 <= i < |es|
      ensures WellFormedEntry(true, es[i])
    {
      NameIsBody(m, d, i);
    }
    BoxSound(es);
  }

  lemma BoxSound(es: seq<Entry>)
    requires Heights(es) <= MAX_DEPTH && forall i :: 0 <= i < |es| ==> WellFormedEntry(true, es[i])
    ensures WellFormed(Box(true, "", es)) && Height(Box(true, "", es)) <= MAX_DEPTH
  {
    hide WellFormedEntry;
  }

  /** Letters and underscores need no escaping. */
  predicate Clear(s: string) {
    forall i :: 0 <= i < |s| ==> 'a' <= s[i] <= 'z' || s[i] == '_'
  }

  lemma {:induction false} ClearEscapes(s: string)
    requires Clear(s)
    ensures EscapeAll(s) == s
  {
    hide EscapeAll;
    if s != "" {
      ClearEscapes(s[..|s| - 1]);
      EscapeSnoc(s[..|s| - 1], s[|s| - 1]);
      assert s == s[..|s| - 1] + [s[|s| - 1]];
    } else {
      EscapeNone();
    }
  }

  lemma NameIsBody(m: Message, d: Texts, i: nat)
    requires i < 8
    ensures IsBody(Members(m, d)[i].name)
  {
    hide IsBody, EscapeAll;
    NamesClear(m, d, i);
    var name := Members(m, d)[i].name;
    ClearEscapes(name);
    EscapedIsBody(name);
  }

  lemma NamesClear(m: Message, d: Texts, i: nat)
    requires i < 8
    ensures Clear(Members(m, d)[i].name)
  {
    assert Clear("msg_type") && Clear("payload") && Clear("metadata") && Clear("route");
    assert Clear("node") && Clear("target_site_id") && Clear("target_pubkey") && Clear("source_peer");
  }

  lemma NamesDiffer(m: Message, d: Texts, i: nat, j: nat)
    requires i < j < 8
    ensures Members(m, d)[i].name != Members(m, d)[j].name
  {
    var names := ["msg_type", "payload", "metadata", "route", "node", "target_site_id", "target_pubkey", "source_peer"];
    assert Members(m, d)[i].name == names[i] && Members(m, d)[j].name == names[j];
    assert names[0][1] == 's' && names[2][1] == 'e';
    assert |names[i]| == |names[j]| ==> i == 0 && j == 2;
  }

  lemma MemberIs(m: Message, d: Texts, i: nat)
    requires i < 8
    ensures FirstEntry(Members(m, d), Members(m, d)[i].name) == i
  {
    hide FirstEntry, Members;
    var es := Members(m, d);
    var k := FirstEntry(es, es[i].name);
    if k < i {
      NamesDiffer(m, d, k, i);
      assert false;
    }
  }

  /** A routing field comes back as it was, unless it is too long for its buffer. */
  lemma FieldBack(m: Message, d: Texts, i: nat, o: Optional, ts: seq<Token>, room: nat)
    requires i < 8 && Spelled(m, d) && room > 0 && Members(m, d)[i].value == Scalar(o)
    requires ts == Flatten(NodeOf(Document(m, d), 0), -1, 0) && StringsClose(Frame(m), ts)
    ensures Field(Frame(m), ts, Members(m, d)[i].name, room)
         == if o.Present? && |o.text| >= room then Refusal(ERR_NOMEM) else Copied(o)
  {
    hide Members, Frame, Flatten, ObjectGet, FirstEntry, StringEnd, Unescape, ValueStart, EntryStart;
    hide Print, NodeOf, Scalar, StringsClose;
    var js, es := Frame(m), Members(m, d);
    FramePrints(m, d);
    assert At(js, 0, Print(Document(m, d)));
    MemberFound(js, Document(m, d), es[i].name, ts);
    MemberIs(m, d, i);
    ScalarField(js, ts, es[i].name, o, ValueStart(es[i], EntryStart(es, 1, i)), room);
  }

  /** What the parser makes of the token of a string or of a null. */
  lemma ScalarField(js: string, ts: seq<Token>, name: string, o: Optional, p: nat, room: nat)
    requires StringsClose(js, ts) && At(js, p, Print(Scalar(o))) && room > 0
    requires var got, n := ObjectGet(js, ts, 0, name), NodeOf(Scalar(o), p);
             0 <= got < |ts| && ts[got].kind == n.kind && ts[got].start == n.start && ts[got].end == n.end
    ensures Field(js, ts, name, room)
         == if o.Present? && |o.text| >= room then Refusal(ERR_NOMEM) else Copied(o)
  {
    hide ObjectGet, StringEnd, Unescape, EscapeAll;
    if o.Present? {
      assert Print(Quoted(EscapeAll(o.text))) == Literal(o.text);
      LiteralRoundTrip(js, p, o.text, room);
    }
  }

  /** The text of the message that a span covers. */
  ghost predicate Covers(js: string, s: Span, text: string) {
    s.Span? && 0 <= s.start <= s.end <= |js| && js[s.start..s.end] == text
  }

  lemma SpanBack(m: Message, d: Texts, i: nat, ts: seq<Token>)
    requires i < 8 && Spelled(m, d)
    requires ts == Flatten(NodeOf(Document(m, d), 0), -1, 0)
    ensures Covers(Frame(m), SpanAt(Frame(m), ts, Members(m, d)[i].name), Print(Members(m, d)[i].value))
  {
    hide Members, Frame, Flatten, ObjectGet, FirstEntry, ValueStart, EntryStart;
    var js, es := Frame(m), Members(m, d);
    FramePrints(m, d);
    assert At(js, 0, Print(Document(m, d)));
    MemberFound(js, Document(m, d), es[i].name, ts);
    MemberIs(m, d, i);
    NodeSpan(es[i].value, ValueStart(es[i], EntryStart(es, 1, i)));
  }

  lemma NodeSpan(v: Json, p: nat)
    ensures var n := NodeOf(v, p);
            && (n.kind == String ==> n.start == p + 1 && n.end == p + |Print(v)| - 1)
            && (n.kind != String ==> n.start == p && n.end == p + |Print(v)|)
  {
  }

  predicate Short(o: Optional, room: nat) {
    o.Present? ==> |o.text| < room
  }

  /** Every string field fits the buffer the parser has for it. */
  predicate Fits(m: Message) {
    && |m.msgType| < MSG_TYPE_MAX && Short(m.node, NODE_MAX) && Short(m.targetSite, SITE_ID_MAX)
    && Short(m.targetKey, PUBLIC_KEY_MAX) && Short(m.sourcePeer, NODE_MAX)
  }

  ghost predicate Countable(m: Message, d: Texts) {
    Size(NodeOf(Document(m, d), 0)) <= MAX_TOKENS
  }

  /** Every string field is the message's own, and the spans cover exactly its payload and metadata. */
  ghost predicate ReadsBack(m: Message, f: Parsed) {
    && f.Parsed?
    && f == Parsed(m.msgType, f.payload, f.metadata, m.node, m.targetSite, m.targetKey, m.sourcePeer)
    && Covers(Frame(m), f.payload, Raw(m.payload, "{}")) && Covers(Frame(m), f.metadata, Raw(m.metadata, "{}"))
  }

  /**
   * Parsing a serialized message gives back every string field and the exact texts of payload and metadata, as long as
   * its JSON texts are documents within the limits; and it fails exactly when a field is too long for its buffer.
   */
  lemma ParseSerialized(m: Message, d: Texts)
    requires Spelled(m, d) && Sound(d.payload) && Sound(d.metadata) && Sound(d.route)
    requires Countable(m, d)
    ensures Fits(m) ==> ReadsBack(m, ParseFrame(Frame(m)))
    ensures !Fits(m) ==> ParseFrame(Frame(m)) == Failed(ERR_NOMEM)
  {
    hide Members, Frame, NodeOf, Field, SpanAt, StringsClose, ParseDocument, Print, Scalar, Flatten, Sound, Covers;
    hide WellFormed;
    var js, v := Frame(m), Document(m, d);
    FramePrints(m, d);
    DocumentSound(m, d);
    DocumentAccepted("", v, "", MAX_TOKENS);
    assert "" + Print(v) + "" == js;
    AcceptedStringsClose(js, MAX_TOKENS);
    var ts := Flatten(NodeOf(v, 0), -1, 0);
    BoxRoot(v);
    MembersAre(m, d);
    FieldBack(m, d, 0, Present(m.msgType), ts, MSG_TYPE_MAX);
    SpanBack(m, d, 1, ts);
    SpanBack(m, d, 2, ts);
    FieldBack(m, d, 4, m.node, ts, NODE_MAX);
    FieldBack(m, d, 5, m.targetSite, ts, SITE_ID_MAX);
    FieldBack(m, d, 6, m.targetKey, ts, PUBLIC_KEY_MAX);
    FieldBack(m, d, 7, m.sourcePeer, ts, NODE_MAX);
  }

  lemma BoxRoot(v: Json)
    requires v.Box? && v.braced
    ensures |Flatten(NodeOf(v, 0), -1, 0)| > 0 && Flatten(NodeOf(v, 0), -1, 0)[0].kind == Object
  {
  }

  lemma MembersAre(m: Message, d: Texts)
    ensures var es := Members(m, d);
            && es[0] == Member("msg_type", Scalar(Present(m.msgType))) && es[1] == Member("payload", d.payload)
            && es[2] == Member("metadata", d.metadata) && es[4] == Member("node", Scalar(m.node))
            && es[5] == Member("target_site_id", Scalar(m.targetSite))
            && es[6] == Member("target_pubkey", Scalar(m.targetKey))
            && es[7] == Member("source_peer", Scalar(m.sourcePeer))
  {
  }
}
