/** What a hive message frame means, read off the tree of any text the tokenizer accepts. */
module WireMeaning {
  import opened JsonTree
  import opened JsonTokens
  import opened JsonAgree
  import opened JsonEscape
  import opened JsonMeaning
  import Wire

  /** The field is the text of the first member with this name; without one, or when it is no string, it is unset. */
  ghost predicate FieldIs(js: string, root: Node, name: string, room: nat, field: Wire.Optional) {
    match MemberOf(js, root, name)
    case NoChild => field.Absent?
    case Child(v) =>
      if v.kind != String then field.Absent?
      else field.Present? && |field.text| < room && Says(js, v, field.text)
  }

  /** The stretch of the text that the first member with this name takes, quotes included. */
  ghost predicate SpanIs(js: string, root: Node, name: string, span: Wire.Span) {
    match MemberOf(js, root, name)
    case NoChild => span.NoSpan?
    case Child(v) => span == Wire.Span.Span(RawStart(v), RawEnd(v))
  }

  lemma FieldMeans(js: string, tokens: nat, root: Node, name: string, room: nat)
    requires ParseDocument(js, tokens) == Accepted(root) && root.kind == Object && room > 0
    ensures var ts := Flatten(root, -1, 0);
            && Wire.StringsClose(js, ts)
            && forall field :: Wire.Field(js, ts, name, room) == Wire.Copied.Copied(field) <==> FieldIs(js, root, name, room, field)
  {
    hide ParseDocument, Flatten, ObjectGet, Says, IsString, Unescape, Located, MemberOf, Wire.StringsClose;
    Wire.AcceptedStringsClose(js, tokens);
    MemberGets(js, tokens, root, name);
    var m := MemberOf(js, root, name);
    if m.Child? && m.value.kind == String {
      LocatedString(js, m.value);
      CopyIs(js, m.value, room);
      IsStringSpan(js, m.value);
    }
  }

  lemma IsStringSpan(js: string, n: Node)
    requires IsString(js, n)
    ensures n.start <= n.end < |js|
  {
  }

  lemma SpanMeans(js: string, tokens: nat, root: Node, name: string)
    requires ParseDocument(js, tokens) == Accepted(root) && root.kind == Object
    ensures SpanIs(js, root, name, Wire.SpanAt(js, Flatten(root, -1, 0), name))
  {
    hide ParseDocument, Flatten, ObjectGet, Located, MemberOf;
    MemberGets(js, tokens, root, name);
  }

  /** Everything a frame says. */
  ghost predicate Means(js: string, root: Node, r: Wire.Parsed)
    requires r.Parsed?
  {
    && root.kind == Object
    && FieldIs(js, root, "msg_type", 32, Wire.Present(r.msgType))
    && SpanIs(js, root, "payload", r.payload) && SpanIs(js, root, "metadata", r.metadata)
    && FieldIs(js, root, "node", 96, r.node)
    && FieldIs(js, root, "target_site_id", 64, r.targetSite)
    && FieldIs(js, root, "target_pubkey", 256, r.targetKey)
    && FieldIs(js, root, "source_peer", 96, r.sourcePeer)
  }

  lemma SpanOne(js: string, root: Node, name: string, a: Wire.Span, b: Wire.Span)
    requires SpanIs(js, root, name, a) && SpanIs(js, root, name, b)
    ensures a == b
  {
  }

  /** A text parses to a frame exactly when the tokenizer accepts it within the limit and its tree says so. */
  lemma ParsedIff(js: string, r: Wire.Parsed)
    requires r.Parsed?
    ensures Wire.ParseFrame(js) == r <==>
            ParseDocument(js, 256).Accepted? && Means(js, ParseDocument(js, 256).root, r)
  {
    hide ParseDocument, Flatten, Wire.Field, Wire.SpanAt, Wire.StringsClose, FieldIs, SpanIs;
    var d := ParseDocument(js, Wire.MAX_TOKENS);
    if d.Accepted? && d.root.kind == Object {
      var root, ts := d.root, Flatten(d.root, -1, 0);
      FieldMeans(js, Wire.MAX_TOKENS, root, "msg_type", Wire.MSG_TYPE_MAX);
      FieldMeans(js, Wire.MAX_TOKENS, root, "node", Wire.NODE_MAX);
      FieldMeans(js, Wire.MAX_TOKENS, root, "target_site_id", Wire.SITE_ID_MAX);
      FieldMeans(js, Wire.MAX_TOKENS, root, "target_pubkey", Wire.PUBLIC_KEY_MAX);
      FieldMeans(js, Wire.MAX_TOKENS, root, "source_peer", Wire.NODE_MAX);
      SpanMeans(js, Wire.MAX_TOKENS, root, "payload");
      SpanMeans(js, Wire.MAX_TOKENS, root, "metadata");
      if SpanIs(js, root, "payload", r.payload) {
        SpanOne(js, root, "payload", r.payload, Wire.SpanAt(js, ts, "payload"));
      }
      if SpanIs(js, root, "metadata", r.metadata) {
        SpanOne(js, root, "metadata", r.metadata, Wire.SpanAt(js, ts, "metadata"));
      }
    }
    if d.Accepted? {
      RootKind(d);
    }
  }

  lemma RootKind(d: Document)
    requires d.Accepted?
    ensures Flatten(d.root, -1, 0)[0].kind == d.root.kind
  {
  }

  // ------------------------------------------------------------------------------- what is written

  /** Names and texts, as members of an object, with commas between them. */
  function Listed(names: seq<string>, texts: seq<string>): string
    requires |names| == |texts|
  {
    if names == [] then ""
    else "\"" + names[0] + "\":" + texts[0] + (if |names| == 1 then "" else "," + Listed(names[1..], texts[1..]))
  }

  /** A JSON string, or null. */
  ghost predicate IsScalar(o: Wire.Optional, t: string) {
    if o.Present? then t == "\"" + EscapeAll(o.text) + "\"" else t == "null"
  }

  ghost predicate IsRaw(o: Wire.Optional, default: string, t: string) {
    t == if o.Present? then o.text else default
  }

  /** A message is written as one object with eight members in this order, and no white space between them. */
  lemma FrameIs(m: Wire.Message) returns (texts: seq<string>)
    ensures |texts| == 8 && texts[0] == "\"" + EscapeAll(m.msgType) + "\""
    ensures IsRaw(m.payload, "{}", texts[1]) && IsRaw(m.metadata, "{}", texts[2]) && IsRaw(m.route, "[]", texts[3])
    ensures IsScalar(m.node, texts[4]) && IsScalar(m.targetSite, texts[5])
    ensures IsScalar(m.targetKey, texts[6]) && IsScalar(m.sourcePeer, texts[7])
    ensures var names := ["msg_type", "payload", "metadata", "route", "node", "target_site_id", "target_pubkey", "source_peer"];
            Wire.Frame(m) == "{" + Listed(names, texts) + "}"
  {
    hide Listed, EscapeAll, Wire.Line;
    texts := [Literal(m.msgType), Wire.Raw(m.payload, "{}"), Wire.Raw(m.metadata, "{}"), Wire.Raw(m.route, "[]"),
              Wire.Quote(m.node), Wire.Quote(m.targetSite), Wire.Quote(m.targetKey), Wire.Quote(m.sourcePeer)];
    Wire.HeadLabels(texts[0], texts[1], texts[2], texts[3]);
    Wire.Labels(texts[4], texts[5], texts[6], texts[7]);
    EightListed("msg_type", "payload", "metadata", "route", "node", "target_site_id", "target_pubkey", "source_peer", texts);
  }

  lemma OneListed(name: string, text: string)
    ensures Listed([name], [text]) == Wire.Line(name, text)
  {
    assert "\"" + name + "\":" + text + "" == "\"" + name + "\":" + text;
  }

  lemma MoreListed(name: string, text: string, names: seq<string>, texts: seq<string>)
    requires |names| == |texts| > 0
    ensures Listed([name] + names, [text] + texts) == Wire.Line(name, text) + ("," + Listed(names, texts))
  {
    assert ([name] + names)[1..] == names && ([text] + texts)[1..] == texts;
  }

  lemma FourListed(a: string, b: string, c: string, d: string, t: string, u: string, v: string, w: string)
    ensures Listed([a, b, c, d], [t, u, v, w])
         == Wire.Line(a, t) + ("," + (Wire.Line(b, u) + ("," + (Wire.Line(c, v) + ("," + Wire.Line(d, w))))))
  {
    hide Listed, Wire.Line;
    OneListed(d, w);
    MoreListed(c, v, [d], [w]);
    MoreListed(b, u, [c, d], [v, w]);
    MoreListed(a, t, [b, c, d], [u, v, w]);
    assert [c, d] == [c] + [d] && [b, c, d] == [b] + [c, d] && [a, b, c, d] == [a] + [b, c, d];
    assert [v, w] == [v] + [w] && [u, v, w] == [u] + [v, w] && [t, u, v, w] == [t] + [u, v, w];
  }

  lemma {:induction false} ListedJoin(names: seq<string>, texts: seq<string>, more: seq<string>, others: seq<string>)
    requires |names| == |texts| > 0 && |more| == |others| > 0
    ensures Listed(names + more, texts + others) == Listed(names, texts) + ("," + Listed(more, others))
    decreases |names|
  {
    hide Listed, Wire.Line;
    var ns, ts := names[1..], texts[1..];
    assert names == [names[0]] + ns && texts == [texts[0]] + ts;
    if |names| == 1 {
      OneListed(names[0], texts[0]);
      assert names + more == [names[0]] + more && texts + others == [texts[0]] + others;
      assert names == [names[0]] && texts == [texts[0]];
      MoreListed(names[0], texts[0], more, others);
    } else {
      MoreListed(names[0], texts[0], ns, ts);
      ListedJoin(ns, ts, more, others);
      assert names + more == [names[0]] + (ns + more) && texts + others == [texts[0]] + (ts + others);
      MoreListed(names[0], texts[0], ns + more, ts + others);
      Regroup(Wire.Line(names[0], texts[0]), ",", Listed(ns, ts), "," + Listed(more, others));
    }
  }

  lemma Regroup(a: string, b: string, c: string, d: string)
    ensures a + (b + (c + d)) == a + (b + c) + d
  {
  }

  lemma EightListed(a: string, b: string, c: string, d: string, e: string, f: string, g: string, h: string, t: seq<string>)
    requires |t| == 8
    ensures "{" + Listed([a, b, c, d, e, f, g, h], t) + "}"
         == (("{" + Wire.Line(a, t[0])) + ("," + Wire.Line(b, t[1])) + ("," + Wire.Line(c, t[2])) + ("," + Wire.Line(d, t[3])))
            + (("," + Wire.Line(e, t[4])) + ("," + Wire.Line(f, t[5])) + ("," + Wire.Line(g, t[6])) + ("," + Wire.Line(h, t[7])) + "}")
  {
    hide Listed, Wire.Line;
    FourListed(a, b, c, d, t[0], t[1], t[2], t[3]);
    FourListed(e, f, g, h, t[4], t[5], t[6], t[7]);
    ListedJoin([a, b, c, d], [t[0], t[1], t[2], t[3]], [e, f, g, h], [t[4], t[5], t[6], t[7]]);
    assert [a, b, c, d] + [e, f, g, h] == [a, b, c, d, e, f, g, h];
    assert [t[0], t[1], t[2], t[3]] + [t[4], t[5], t[6], t[7]] == t;
    Braced(Wire.Line(a, t[0]), Wire.Line(b, t[1]), Wire.Line(c, t[2]), Wire.Line(d, t[3]),
           Wire.Line(e, t[4]), Wire.Line(f, t[5]), Wire.Line(g, t[6]), Wire.Line(h, t[7]));
  }

  lemma Braced(a: string, b: string, c: string, d: string, e: string, f: string, g: string, h: string)
    ensures "{" + ((a + ("," + (b + ("," + (c + ("," + d)))))) + ("," + (e + ("," + (f + ("," + (g + ("," + h)))))))) + "}"
         == (("{" + a) + ("," + b) + ("," + c) + ("," + d)) + (("," + e) + ("," + f) + ("," + g) + ("," + h) + "}")
  {
  }
}
