/** Every text the tokenizer accepts is the print of a well-formed document: nothing else gets in. */
module JsonSpelling {
  import opened JsonText
  import opened JsonTree
  import opened JsonParser
  import opened JsonPrint
  import opened JsonGrammar

  // ------------------------------------------------------------------------------------ small pieces

  lemma SpacesAt(t: string, i: nat) returns (s: string)
    requires i <= |t|
    ensures Spaces(s) && At(t, i, s) && i + |s| == SkipSpace(t, i)
  {
    s := t[i..SkipSpace(t, i)];
  }

  lemma CharAt(t: string, i: nat, c: char)
    requires i < |t| && t[i] == c
    ensures At(t, i, [c])
  {
  }

  lemma SameBytes(t: string, k: nat, end: nat, i: nat)
    requires k <= i && end < |t| && t[end] == '"' && k <= end
    ensures i <= end ==> (t[k..end] + "\"")[i - k] == t[i]
  {
  }

  /** What stands between an opening quote and the quote that closes it is a body by itself. */
  lemma {:induction false} BodyAlone(t: string, k: nat, i: nat, end: nat)
    requires k <= i <= end < |t| && StringEnd(t, i) == CloseAt(end)
    ensures StringEnd(t[k..end] + "\"", i - k) == CloseAt(end - k)
    decreases end - i
  {
    hide IsHex, IsEscape;
    var s := t[k..end] + "\"";
    SameBytes(t, k, end, i);
    if i < end {
      if t[i] != '\\' {
        BodyAlone(t, k, i + 1, end);
      } else {
        SameBytes(t, k, end, i + 1);
        if t[i + 1] == 'u' {
          BodyAlone(t, k, i + 6, end);
          SameBytes(t, k, end, i + 2);
          SameBytes(t, k, end, i + 3);
          SameBytes(t, k, end, i + 4);
          SameBytes(t, k, end, i + 5);
        } else {
          BodyAlone(t, k, i + 2, end);
        }
      }
    }
  }

  lemma StringSpelled(t: string, i: nat, room: nat) returns (body: string)
    requires i < |t| && t[i] == '"' && ParseString(t, i, room).Good?
    ensures IsBody(body) && At(t, i, "\"" + body + "\"")
    ensures ParseString(t, i, room) == Good(Node(String, i + 1, i + 1 + |body|, []), i + |body| + 2)
  {
    hide StringEnd, IsBody;
    var end := StringEnd(t, i + 1).pos;
    body := t[i + 1..end];
    BodyAlone(t, i + 1, i + 1, end);
    BodyIff(body);
    assert t[i..end + 1] == "\"" + body + "\"";
  }

  lemma WordSpelled(t: string, i: nat, room: nat) returns (text: string)
    requires i < |t| && ParsePrimitive(t, i, room).Good?
    ensures IsWord(text) && At(t, i, text)
    ensures ParsePrimitive(t, i, room) == Good(Node(Primitive, i, i + |text|, []), i + |text|)
  {
    text := t[i..PrimitiveEnd(t, i)];
    WordIff(text);
  }

  // ------------------------------------------------------------------------------------------ values

  /** The document v, white space before it, stands at offset i and is what the result describes. */
  ghost predicate ValueIs(t: string, i: nat, d: nat, gap: string, v: Json, node: Node, end: nat) {
    && Spaces(gap) && WellFormed(v) && d + Height(v) <= MAX_DEPTH && At(t, i, gap + Print(v))
    && end == i + |gap| + |Print(v)| && node == NodeOf(v, i + |gap|)
  }

  ghost predicate EntryIs(t: string, i: nat, d: nat, braced: bool, e: Entry, node: Node, end: nat) {
    && WellFormedEntry(braced, e) && d + 1 + Height(e.value) <= MAX_DEPTH && At(t, i, Core(braced, e)) && e.after == ""
    && end == i + |Core(braced, e)| && node == NodeOfEntry(braced, e, i)
  }

  ghost predicate EntriesAre(t: string, i: nat, d: nat, braced: bool, es: seq<Entry>, nodes: seq<Node>, end: nat) {
    && es != [] && (forall k :: 0 <= k < |es| ==> WellFormedEntry(braced, es[k])) && d + Heights(es) <= MAX_DEPTH
    && At(t, i, PrintEntries(braced, es) + [Closing(braced)])
    && end == i + |PrintEntries(braced, es)| + 1 && nodes == NodesOf(braced, es, i)
  }

  lemma {:induction false} ValueSpelled(t: string, i: nat, d: nat, room: nat) returns (gap: string, v: Json)
    requires i <= |t| && ParseValue(t, i, d, room).Good?
    ensures var r := ParseValue(t, i, d, room); ValueIs(t, i, d, gap, v, r.node, r.pos)
    decreases |t| - i, 3
  {
    hide ParseContainer, ParsePrimitive, ParseString, At, Spaces, SkipSpace, IsBody, IsWord;
    gap := SpacesAt(t, i);
    var j := SkipSpace(t, i);
    if t[j] == '{' || t[j] == '[' {
      v := BoxSpelled(t, j, d, room);
    } else if t[j] == '"' {
      var body := StringSpelled(t, j, room);
      v := Quoted(body);
    } else {
      var text := WordSpelled(t, j, room);
      v := Word(text);
    }
    AtJoin(t, i, gap, Print(v));
  }

  lemma {:induction false} BoxSpelled(t: string, i: nat, d: nat, room: nat) returns (v: Json)
    requires i < |t| && (t[i] == '{' || t[i] == '[') && ParseContainer(t, i, d, room).Good? && d <= MAX_DEPTH
    ensures WellFormed(v) && d + Height(v) <= MAX_DEPTH && At(t, i, Print(v))
    ensures ParseContainer(t, i, d, room) == Good(NodeOf(v, i), i + |Print(v)|)
    decreases |t| - i, 2
  {
    hide ParseItems, At, SkipSpace, Spaces, PrintEntries, NodesOf, Heights, WellFormedEntry, Size, IsBody, IsWord;
    var braced := t[i] == '{';
    CharAt(t, i, t[i]);
    var j := SkipSpace(t, i + 1);
    if j < |t| && t[j] == Closing(braced) {
      var inner := SpacesAt(t, i + 1);
      CharAt(t, j, Closing(braced));
      v := Box(braced, inner, []);
      AtJoin(t, i, [t[i]], inner);
      AtJoin(t, i, [t[i]] + inner, [Closing(braced)]);
      NoHeight();
    } else {
      ItemsSkip(t, i + 1, d, braced, room - 1);
      var es := ItemsSpelled(t, i + 1, d, braced, room - 1);
      v := Box(braced, "", es);
      NoSpaces();
      BoxJoins(t, i, braced, es);
    }
  }

  lemma NoHeight()
    ensures Heights([]) == 0 && forall braced, i :: NodesOf(braced, [], i) == []
  {
  }

  lemma BoxJoins(t: string, i: nat, braced: bool, es: seq<Entry>)
    requires es != [] && At(t, i, [if braced then '{' else '[']) && At(t, i + 1, PrintEntries(braced, es) + [Closing(braced)])
    ensures At(t, i, Print(Box(braced, "", es))) && |Print(Box(braced, "", es))| == |PrintEntries(braced, es)| + 2
  {
    hide At, PrintEntries;
    var open, tail := [if braced then '{' else '['], PrintEntries(braced, es) + [Closing(braced)];
    AtJoin(t, i, open, tail);
    assert open + tail == Print(Box(braced, "", es));
  }

  lemma NoSpaces()
    ensures Spaces("")
  {
  }

  // ------------------------------------------------------------------------------------------- items

  lemma {:induction false} ItemSpelled(t: string, i: nat, d: nat, braced: bool, room: nat) returns (e: Entry)
    requires i <= |t| && ParseItem(t, i, d, braced, room).Good?
    ensures var r := ParseItem(t, i, d, braced, room); EntryIs(t, i, d, braced, e, r.node, r.pos)
    decreases |t| - i, 4
  {
    hide ParseValue, ParseString, At, Spaces, SkipSpace, StringEnd, Print, Height, NodeOf, WellFormed, IsBody;
    NoSpaces();
    if !braced {
      var gap, v := ValueSpelled(t, i, d + 1, room);
      e := Entry("", "", "", gap, v, "");
      assert Core(false, e) == gap + Print(v);
    } else {
      var before := SpacesAt(t, i);
      var j := SkipSpace(t, i);
      var name := StringSpelled(t, j, room);
      var close := j + |name| + 2;
      var afterName := SpacesAt(t, close);
      var k := SkipSpace(t, close);
      CharAt(t, k, ':');
      var gap, v := ValueSpelled(t, k + 1, d + 1, room - 1);
      e := Entry(before, name, afterName, gap, v, "");
      MemberJoins(t, i, e);
    }
  }

  /** The pieces of a member, one behind the other, make its text. */
  lemma MemberJoins(t: string, i: nat, e: Entry)
    requires At(t, i, e.before)
    requires var j := i + |e.before|; var close := j + |e.name| + 2; var k := close + |e.afterName|;
             At(t, j, "\"" + e.name + "\"") && At(t, close, e.afterName) && At(t, k, ":") && At(t, k + 1, e.gap + Print(e.value))
    ensures At(t, i, Core(true, e))
    ensures |Core(true, e)| == |e.before| + |e.name| + 2 + |e.afterName| + 1 + |e.gap| + |Print(e.value)|
  {
    hide At, Print;
    var a, b, p := "\"" + e.name + "\"", "\"" + e.name + "\"" + e.afterName, Print(e.value);
    var j := i + |e.before|;
    AtJoin(t, j, a, e.afterName);
    AtJoin(t, j, b, ":");
    AtJoin(t, i, e.before, b + ":");
    AtJoin(t, i, e.before + (b + ":"), e.gap + p);
    assert (e.before + (b + ":")) + (e.gap + p) == e.before + (b + ":") + e.gap + p;
  }

  lemma {:induction false} ItemsSpelled(t: string, i: nat, d: nat, braced: bool, room: nat) returns (es: seq<Entry>)
    requires i <= |t| && ParseItems(t, i, d, braced, room).GoodAll?
    ensures var r := ParseItems(t, i, d, braced, room); EntriesAre(t, i, d, braced, es, r.nodes, r.pos)
    decreases |t| - i, 5
  {
    hide ParseItem, ParseItems, SkipSpace, EntryIs, EntriesAre;
    ItemsAre(t, i, d, braced, room);
    var item := ParseItem(t, i, d, braced, room);
    var core := ItemSpelled(t, i, d, braced, room);
    var after := SpacesAt(t, item.pos);
    var e := core.(after := after);
    var k := SkipSpace(t, item.pos);
    if t[k] == ',' {
      var rest := ItemsSpelled(t, k + 1, d, braced, room - Size(item.node));
      es := [e] + rest;
      EntriesJoin(t, i, d, braced, core, after, item.node, item.pos, rest, ParseItems(t, k + 1, d, braced, room - Size(item.node)));
    } else {
      es := [e];
      EntryCloses(t, i, d, braced, core, after, item.node, item.pos);
    }
  }

  lemma ItemsAre(t: string, i: nat, d: nat, braced: bool, room: nat)
    requires i <= |t| && ParseItems(t, i, d, braced, room).GoodAll?
    ensures var r, item := ParseItems(t, i, d, braced, room), ParseItem(t, i, d, braced, room);
            && item.Good? && item.pos <= |t| && SkipSpace(t, item.pos) < |t|
            && var k := SkipSpace(t, item.pos);
               if t[k] == ',' then
                 && room >= Size(item.node)
                 && var rest := ParseItems(t, k + 1, d, braced, room - Size(item.node));
                    rest.GoodAll? && r == GoodAll([item.node] + rest.nodes, rest.pos)
               else t[k] == Closing(braced) && r == GoodAll([item.node], k + 1)
  {
    hide ParseItem, SkipSpace;
  }

  /** White space behind an entry changes neither its node nor its form. */
  lemma AfterJoins(t: string, i: nat, d: nat, braced: bool, core: Entry, after: string, node: Node, end: nat)
    requires EntryIs(t, i, d, braced, core, node, end) && Spaces(after) && At(t, end, after)
    ensures var e := core.(after := after);
            && WellFormedEntry(braced, e) && d + 1 + Height(e.value) <= MAX_DEPTH && At(t, i, PrintEntry(braced, e))
            && |PrintEntry(braced, e)| == end - i + |after| && node == NodeOfEntry(braced, e, i)
  {
    hide At, Print, Spaces, Height, NodeOf, WellFormed;
    var e := core.(after := after);
    CoreIsPrefix(braced, e);
    assert Core(braced, e) == Core(braced, core);
    AtJoin(t, i, Core(braced, core), after);
  }

  lemma EntryCloses(t: string, i: nat, d: nat, braced: bool, core: Entry, after: string, node: Node, end: nat)
    requires EntryIs(t, i, d, braced, core, node, end) && Spaces(after) && At(t, end, after)
    requires end + |after| < |t| && t[end + |after|] == Closing(braced)
    ensures EntriesAre(t, i, d, braced, [core.(after := after)], [node], end + |after| + 1)
  {
    hide EntryIs, At, PrintEntry, Print, WellFormedEntry, Height, NodeOfEntry;
    var e := core.(after := after);
    AfterJoins(t, i, d, braced, core, after, node, end);
    EntriesUnfold(braced, [e]);
    assert PrintEntry(braced, e) + "" == PrintEntry(braced, e);
    OneNode(braced, e, i);
    OneHeight(e);
    CharAt(t, end + |after|, Closing(braced));
    AtJoin(t, i, PrintEntry(braced, e), [Closing(braced)]);
  }

  lemma OneNode(braced: bool, e: Entry, i: nat)
    ensures NodesOf(braced, [e], i) == [NodeOfEntry(braced, e, i)]
  {
    hide NodeOfEntry;
    assert [e][1..] == [];
  }

  lemma OneHeight(e: Entry)
    ensures Heights([e]) == 1 + Height(e.value)
  {
    hide Height;
    assert [e][1..] == [];
  }

  lemma ConsHeight(e: Entry, es: seq<Entry>)
    ensures Heights([e] + es) == if 1 + Height(e.value) > Heights(es) then 1 + Height(e.value) else Heights(es)
  {
    hide Height;
    assert ([e] + es)[1..] == es;
  }

  lemma ConsNodes(braced: bool, e: Entry, es: seq<Entry>, i: nat)
    ensures NodesOf(braced, [e] + es, i)
         == [NodeOfEntry(braced, e, i)] + NodesOf(braced, es, i + |PrintEntry(braced, e)| + 1)
  {
    hide NodeOfEntry, PrintEntry;
    assert ([e] + es)[1..] == es;
  }

  lemma ConsPrint(braced: bool, e: Entry, es: seq<Entry>)
    requires es != []
    ensures PrintEntries(braced, [e] + es) == PrintEntry(braced, e) + ("," + PrintEntries(braced, es))
  {
    hide PrintEntry;
    assert ([e] + es)[1..] == es;
  }

  lemma EntriesJoin(t: string, i: nat, d: nat, braced: bool, core: Entry, after: string, node: Node, end: nat,
                    rest: seq<Entry>, r: Parses)
    requires EntryIs(t, i, d, braced, core, node, end) && Spaces(after) && At(t, end, after)
    requires end + |after| < |t| && t[end + |after|] == ','
    requires r.GoodAll? && EntriesAre(t, end + |after| + 1, d, braced, rest, r.nodes, r.pos)
    ensures EntriesAre(t, i, d, braced, [core.(after := after)] + rest, [node] + r.nodes, r.pos)
  {
    hide EntryIs, At, PrintEntry, PrintEntries, Print, WellFormedEntry, Height, Heights, NodeOfEntry, NodesOf;
    var e := core.(after := after);
    AfterJoins(t, i, d, braced, core, after, node, end);
    ConsPrint(braced, e, rest);
    ConsNodes(braced, e, rest, i);
    ConsHeight(e, rest);
    CharAt(t, end + |after|, ',');
    var tail, close := PrintEntries(braced, rest), [Closing(braced)];
    AtJoin(t, end + |after|, ",", tail + close);
    AtJoin(t, i, PrintEntry(braced, e), "," + (tail + close));
    assert PrintEntry(braced, e) + ("," + (tail + close)) == PrintEntries(braced, [e] + rest) + close;
  }

  // -------------------------------------------------------------------------------------- main result

  /** The text is the document v with white space around it, and within the limits. */
  ghost predicate Spells(t: string, before: string, v: Json, after: string, room: nat) {
    && Spaces(before) && Spaces(after) && WellFormed(v) && t == before + Print(v) + after
    && Height(v) <= 24 && Size(NodeOf(v, |before|)) <= room
  }

  lemma DocumentSpelled(t: string, room: nat) returns (before: string, v: Json, after: string)
    requires ParseDocument(t, room).Accepted?
    ensures Spells(t, before, v, after, room) && ParseDocument(t, room).root == NodeOf(v, |before|)
  {
    hide ParseValue, Print, Height, NodeOf, SkipSpace, Spaces, WellFormed;
    before, v := ValueSpelled(t, 0, 0, room);
    var end := ParseValue(t, 0, 0, room).pos;
    after := SpacesAt(t, end);
    assert t[..end] == before + Print(v) && t == t[..end] + t[end..] && t[end..] == after;
  }

  /** The tokenizer accepts a text, with a certain tree, exactly when it spells a document with that tree. */
  lemma AcceptedIff(t: string, room: nat, root: Node)
    ensures ParseDocument(t, room) == Accepted(root) <==>
            exists before, v, after :: Spells(t, before, v, after, room) && root == NodeOf(v, |before|)
  {
    if ParseDocument(t, room) == Accepted(root) {
      var before, v, after := DocumentSpelled(t, room);
    }
    forall before, v, after | Spells(t, before, v, after, room) && root == NodeOf(v, |before|)
      ensures ParseDocument(t, room) == Accepted(root)
    {
      DocumentAccepted(before, v, after, room);
    }
  }
}
