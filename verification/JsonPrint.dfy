/** Every well-formed document, however spaced, is accepted, and its tokens are those of the document's tree. */
module JsonPrint {
  import opened JsonText
  import opened JsonTree
  import opened JsonParser
  import opened JsonGrammar

  /** A JSON document with its white space. In an array the name and the gap behind it are not used. */
  datatype Json = Word(text: string) | Quoted(body: string) | Box(braced: bool, inner: string, entries: seq<Entry>)

  datatype Entry = Entry(before: string, name: string, afterName: string, gap: string, value: Json, after: string)

  function Print(v: Json): string
    decreases v, 1
  {
    match v
    case Word(text) => text
    case Quoted(body) => "\"" + body + "\""
    case Box(braced, inner, entries) =>
      [if braced then '{' else '['] + (if entries == [] then inner else PrintEntries(braced, entries)) + [if braced then '}' else ']']
  }

  function PrintEntries(braced: bool, es: seq<Entry>): string
    decreases es, 0
  {
    if es == [] then ""
    else PrintEntry(braced, es[0]) + (if |es| == 1 then "" else "," + PrintEntries(braced, es[1..]))
  }

  function PrintEntry(braced: bool, e: Entry): string
    decreases e, 2
  {
    e.before + (if braced then "\"" + e.name + "\"" + e.afterName + ":" else "") + e.gap + Print(e.value) + e.after
  }

  predicate Spaces(s: string) {
    forall k :: 0 <= k < |s| ==> s[k] == ' ' || s[k] == '\t' || s[k] == '\n' || s[k] == '\r'
  }

  ghost predicate WellFormed(v: Json)
    decreases v, 1
  {
    match v
    case Word(text) => IsWord(text)
    case Quoted(body) => IsBody(body)
    case Box(braced, inner, entries) => Spaces(inner) && forall i :: 0 <= i < |entries| ==> WellFormedEntry(braced, entries[i])
  }

  ghost predicate WellFormedEntry(braced: bool, e: Entry)
    decreases e, 2
  {
    && Spaces(e.before) && Spaces(e.gap) && Spaces(e.after) && (braced ==> Spaces(e.afterName) && IsBody(e.name))
    && WellFormed(e.value)
  }

  function Height(v: Json): nat
    decreases v, 1
  {
    if v.Box? then Heights(v.entries) else 0
  }

  /** The height of a box with these entries. */
  function Heights(es: seq<Entry>): nat
    decreases es, 0
  {
    if es == [] then 0
    else
      var a, b := 1 + Height(es[0].value), Heights(es[1..]);
      if a > b then a else b
  }

  // --------------------------------------------------------------------------- the tree of a document

  function NodeOf(v: Json, at: nat): Node
    decreases v, 1
  {
    match v
    case Word(text) => Node(Primitive, at, at + |text|, [])
    case Quoted(body) => Node(String, at + 1, at + 1 + |body|, [])
    case Box(braced, _, entries) =>
      Node(if braced then Object else Array, at, at + |Print(v)|, NodesOf(braced, entries, at + 1))
  }

  function NodesOf(braced: bool, es: seq<Entry>, at: nat): seq<Node>
    decreases es, 0
  {
    if es == [] then []
    else [NodeOfEntry(braced, es[0], at)] + NodesOf(braced, es[1..], at + |PrintEntry(braced, es[0])| + 1)
  }

  function NodeOfEntry(braced: bool, e: Entry, at: nat): Node
    decreases e, 2
  {
    var p := at + |e.before|;
    if braced then
      Node(String, p + 1, p + 1 + |e.name|, [NodeOf(e.value, p + 1 + |e.name| + 1 + |e.afterName| + 1 + |e.gap|)])
    else NodeOf(e.value, p + |e.gap|)
  }

  // ---------------------------------------------------------------------------------- pieces in place

  /** The text has s at offset i. */
  ghost predicate At(t: string, i: nat, s: string) {
    i + |s| <= |t| && t[i..i + |s|] == s
  }

  lemma AtSplit(t: string, i: nat, a: string, b: string)
    requires At(t, i, a + b)
    ensures At(t, i, a) && At(t, i + |a|, b)
  {
    var s := t[i..i + |a + b|];
    assert s[..|a|] == t[i..i + |a|] && s[|a|..] == t[i + |a|..i + |a| + |b|];
  }

  lemma AtJoin(t: string, i: nat, a: string, b: string)
    requires At(t, i, a) && At(t, i + |a|, b)
    ensures At(t, i, a + b)
  {
    var s := t[i..i + |a + b|];
    assert s[..|a|] == a && s[|a|..] == b;
    assert s == s[..|a|] + s[|a|..];
  }

  lemma AtChar(t: string, i: nat, s: string, k: nat)
    requires At(t, i, s) && k < |s|
    ensures t[i + k] == s[k]
  {
    assert t[i..i + |s|][k] == t[i + k];
  }

  /** A quoted name, white space and a colon. */
  lemma KeyPieces(t: string, j: nat, name: string, gap: string)
    requires At(t, j, "\"" + name + "\"" + gap + ":")
    ensures j < |t| && t[j] == '"' && At(t, j + 1, name + "\"") && At(t, j + 2 + |name|, gap)
    ensures j + 2 + |name| + |gap| < |t| && t[j + 2 + |name| + |gap|] == ':'
  {
    AtSplit(t, j, "\"" + name + "\"" + gap, ":");
    AtSplit(t, j, "\"" + name + "\"", gap);
    AtSplit(t, j, "\"" + name, "\"");
    AtSplit(t, j, "\"", name);
    AtJoin(t, j + 1, name, "\"");
    AtChar(t, j, "\"", 0);
    AtChar(t, j + 2 + |name| + |gap|, ":", 0);
  }

  lemma {:induction false} SpacesSkipped(t: string, i: nat, s: string)
    requires At(t, i, s) && Spaces(s) && (i + |s| == |t| || !IsSpace(t[i + |s|]))
    ensures SkipSpace(t, i) == i + |s|
    decreases |s|
  {
    if s != "" {
      AtChar(t, i, s, 0);
      AtSplit(t, i, [s[0]], s[1..]) by { assert [s[0]] + s[1..] == s; }
      SpacesSkipped(t, i + 1, s[1..]);
    }
  }

  /** A string body closes where it should wherever it stands. */
  lemma {:induction false} BodyCloses(t: string, k: nat, s: string, j: nat)
    requires At(t, k, s) && j <= |s| && StringEnd(s, j).CloseAt?
    ensures StringEnd(t, k + j) == CloseAt(k + StringEnd(s, j).pos)
    decreases |s| - j
  {
    AtChar(t, k, s, j);
    if s[j] != '"' {
      if s[j] != '\\' {
        BodyCloses(t, k, s, j + 1);
      } else {
        AtChar(t, k, s, j + 1);
        if s[j + 1] == 'u' {
          AtChar(t, k, s, j + 2); AtChar(t, k, s, j + 3); AtChar(t, k, s, j + 4); AtChar(t, k, s, j + 5);
          BodyCloses(t, k, s, j + 6);
        } else {
          BodyCloses(t, k, s, j + 2);
        }
      }
    }
  }

  lemma {:induction false} WordEnds(t: string, i: nat, s: string)
    requires At(t, i, s) && (forall k :: 0 <= k < |s| ==> Plain(s[k]))
    requires i + |s| == |t| || EndsPrimitive(t[i + |s|])
    ensures PrimitiveEnd(t, i) == i + |s|
    decreases |s|
  {
    if s != "" {
      AtChar(t, i, s, 0);
      AtSplit(t, i, [s[0]], s[1..]) by { assert [s[0]] + s[1..] == s; }
      WordEnds(t, i + 1, s[1..]);
    }
  }

  /** The first byte of a document is no white space, and says what it is. */
  lemma FirstByte(v: Json)
    requires WellFormed(v)
    ensures var s := Print(v);
            && s != "" && !IsSpace(s[0]) && s[0] != ']' && s[0] != '}'
            && (v.Word? ==> s[0] != '"' && s[0] != '{' && s[0] != '[')
  {
    if v.Word? {
      WordIff(v.text);
      PrimitiveIsPlain(v.text);
    }
  }

  // ------------------------------------------------------------------------------------- main results

  ghost predicate Follows(t: string, e: nat) {
    e == |t| || (e < |t| && EndsPrimitive(t[e]))
  }

  lemma WordAccepted(t: string, at: nat, text: string, room: nat)
    requires At(t, at, text) && IsWord(text) && room > 0 && Follows(t, at + |text|)
    ensures ParsePrimitive(t, at, room) == Good(Node(Primitive, at, at + |text|, []), at + |text|)
  {
    hide IsWord;
    WordIff(text);
    PrimitiveIsPlain(text);
    WordEnds(t, at, text);
  }

  lemma QuotedAccepted(t: string, at: nat, body: string, room: nat)
    requires At(t, at, "\"" + body + "\"") && IsBody(body) && room > 0
    ensures ParseString(t, at, room) == Good(Node(String, at + 1, at + 1 + |body|, []), at + |body| + 2)
  {
    hide At, StringEnd;
    AtSplit(t, at, "\"" + body, "\"");
    AtSplit(t, at, "\"", body);
    AtJoin(t, at + 1, body, "\"");
    BodyIff(body);
    BodyCloses(t, at + 1, body + "\"", 0);
  }

  lemma {:induction false} ValueAccepted(t: string, i: nat, gap: string, v: Json, d: nat, room: nat)
    requires At(t, i, gap + Print(v)) && Spaces(gap) && WellFormed(v) && d + Height(v) <= MAX_DEPTH
    requires var n := NodeOf(v, i + |gap|); Size(n) <= room
    requires Follows(t, i + |gap| + |Print(v)|)
    ensures var at := i + |gap|; ParseValue(t, i, d, room) == Good(NodeOf(v, at), at + |Print(v)|)
    decreases v, 1
  {
    hide ParseContainer, ParsePrimitive, ParseString, At, Spaces, SkipSpace, Height, Size, IsSpace, CheckPrimitive;
    hide IsBody, IsWord;
    var at := i + |gap|;
    AtSplit(t, i, gap, Print(v));
    FirstByte(v);
    AtChar(t, at, Print(v), 0);
    SpacesSkipped(t, i, gap);
    match v
    case Word(text) => WordAccepted(t, at, text, room);
    case Quoted(body) => QuotedAccepted(t, at, body, room);
    case Box(braced, inner, entries) => BoxAccepted(t, at, v, d, room);
  }

  /** A bracket, something, a bracket. */
  lemma BoxPieces(t: string, at: nat, open: char, body: string, close: char)
    requires At(t, at, [open] + body + [close])
    ensures at < |t| && t[at] == open && At(t, at + 1, body)
    ensures at + 1 + |body| < |t| && t[at + 1 + |body|] == close
  {
    AtSplit(t, at, [open] + body, [close]);
    AtSplit(t, at, [open], body);
    AtChar(t, at, [open], 0);
    AtChar(t, at + 1 + |body|, [close], 0);
  }

  lemma {:induction false} BoxAccepted(t: string, at: nat, v: Json, d: nat, room: nat)
    requires v.Box? && At(t, at, Print(v)) && WellFormed(v) && d + Height(v) <= MAX_DEPTH && Size(NodeOf(v, at)) <= room
    ensures at < |t| && t[at] == (if v.braced then '{' else '[')
    ensures ParseContainer(t, at, d, room) == Good(NodeOf(v, at), at + |Print(v)|)
    decreases v, 0
  {
    hide ParseItems, Height, PrintEntries, At, SkipSpace, Sizes, WellFormedEntry, Heights, NodesOf;
    if v.entries == [] {
      EmptyAccepted(t, at, v, d, room);
    } else {
      BoxPieces(t, at, if v.braced then '{' else '[', PrintEntries(v.braced, v.entries), Closing(v.braced));
      EntriesStart(t, at + 1, v.braced, v.entries);
      BoxHeight(v);
      ItemsAccepted(t, at + 1, v.braced, v.entries, d, room - 1);
      ItemsSkip(t, at + 1, d, v.braced, room - 1);
    }
  }

  lemma EmptyAccepted(t: string, at: nat, v: Json, d: nat, room: nat)
    requires v.Box? && v.entries == [] && At(t, at, Print(v)) && WellFormed(v) && d <= MAX_DEPTH && room > 0
    ensures at < |t| && t[at] == (if v.braced then '{' else '[')
    ensures ParseContainer(t, at, d, room) == Good(NodeOf(v, at), at + |Print(v)|)
  {
    hide ParseItems, At, SkipSpace;
    BoxPieces(t, at, if v.braced then '{' else '[', v.inner, Closing(v.braced));
    SpacesSkipped(t, at + 1, v.inner);
  }

  lemma BoxHeight(v: Json)
    requires v.Box?
    ensures Height(v) == Heights(v.entries)
  {
  }

  lemma HeightSplits(es: seq<Entry>)
    requires es != []
    ensures 1 + Height(es[0].value) <= Heights(es) && Heights(es[1..]) <= Heights(es)
  {
  }

  lemma SpacesJoin(a: string, b: string)
    requires Spaces(a) && Spaces(b)
    ensures Spaces(a + b)
  {
  }

  /** The entry without the white space behind it, which ends a primitive as a comma or bracket does. */
  function Core(braced: bool, e: Entry): string {
    e.before + (if braced then "\"" + e.name + "\"" + e.afterName + ":" else "") + e.gap + Print(e.value)
  }

  lemma EntriesUnfold(braced: bool, es: seq<Entry>)
    requires es != []
    ensures PrintEntries(braced, es)
         == PrintEntry(braced, es[0]) + (if |es| == 1 then "" else "," + PrintEntries(braced, es[1..]))
  {
  }

  lemma CoreIsPrefix(braced: bool, e: Entry)
    ensures PrintEntry(braced, e) == Core(braced, e) + e.after
  {
  }

  /** The pieces of an entry in place. */
  lemma EntryPieces(t: string, i: nat, braced: bool, e: Entry)
    requires At(t, i, Core(braced, e))
    ensures At(t, i, e.before)
    ensures braced ==> var j := i + |e.before|; var k := j + 2 + |e.name| + |e.afterName|;
              && j < |t| && t[j] == '"' && At(t, j + 1, e.name + "\"") && At(t, j + 2 + |e.name|, e.afterName)
              && k < |t| && t[k] == ':' && At(t, k + 1, e.gap + Print(e.value))
    ensures !braced ==> At(t, i, (e.before + e.gap) + Print(e.value))
  {
    hide Print, At;
    var p := Print(e.value);
    if braced {
      FourPieces(t, i, e.before, "\"" + e.name + "\"" + e.afterName + ":", e.gap, p);
      KeyPieces(t, i + |e.before|, e.name, e.afterName);
    } else {
      FourPieces(t, i, e.before, "", e.gap, p);
      AtJoin(t, i, e.before, e.gap);
      AtJoin(t, i, e.before + e.gap, p);
    }
  }

  lemma FourPieces(t: string, i: nat, a: string, b: string, c: string, d: string)
    requires At(t, i, a + b + c + d)
    ensures At(t, i, a) && At(t, i + |a|, b) && At(t, i + |a| + |b|, c) && At(t, i + |a| + |b|, c + d)
    ensures At(t, i + |a| + |b| + |c|, d)
  {
    hide At;
    AtSplit(t, i, a + b + c, d);
    AtSplit(t, i, a + b, c);
    AtSplit(t, i, a, b);
    AtJoin(t, i + |a| + |b|, c, d);
  }

  /** The pieces of a non-empty list of entries in place. */
  lemma EntriesPieces(t: string, i: nat, braced: bool, es: seq<Entry>)
    requires At(t, i, PrintEntries(braced, es)) && es != []
    ensures var core, after := Core(braced, es[0]), es[0].after; var k := i + |core| + |after|;
            && At(t, i, core) && At(t, i + |core|, after)
            && (if |es| == 1 then k == i + |PrintEntries(braced, es)|
                else k < |t| && t[k] == ',' && At(t, k + 1, PrintEntries(braced, es[1..]))
                     && k + 1 + |PrintEntries(braced, es[1..])| == i + |PrintEntries(braced, es)|)
  {
    hide PrintEntries, Core, PrintEntry, At;
    EntriesUnfold(braced, es);
    var core, after := Core(braced, es[0]), es[0].after;
    CoreIsPrefix(braced, es[0]);
    if |es| > 1 {
      CommaPieces(t, i, core + after, PrintEntries(braced, es[1..]));
    } else {
      AtSplit(t, i, core + after, "");
    }
    AtSplit(t, i, core, after);
  }

  lemma CommaPieces(t: string, i: nat, first: string, tail: string)
    requires At(t, i, first + ("," + tail))
    ensures var k := i + |first|; At(t, i, first) && k < |t| && t[k] == ',' && At(t, k + 1, tail)
  {
    hide At;
    AtSplit(t, i, first, "," + tail);
    AtSplit(t, i + |first|, ",", tail);
    AtChar(t, i + |first|, ",", 0);
  }

  /** The first entry's first byte is no closing bracket. */
  lemma EntriesStart(t: string, i: nat, braced: bool, es: seq<Entry>)
    requires At(t, i, PrintEntries(braced, es)) && es != [] && WellFormedEntry(braced, es[0])
    ensures var j := SkipSpace(t, i); j < |t| && t[j] != Closing(braced)
  {
    hide PrintEntries, Print, Core, Spaces, At, SkipSpace;
    var e := es[0];
    EntriesPieces(t, i, braced, es);
    EntryPieces(t, i, braced, e);
    if braced {
      SpacesSkipped(t, i, e.before);
    } else {
      AtSplit(t, i, e.before + e.gap, Print(e.value));
      SpacesJoin(e.before, e.gap);
      FirstByte(e.value);
      AtChar(t, i + |e.before + e.gap|, Print(e.value), 0);
      SpacesSkipped(t, i, e.before + e.gap);
    }
  }

  lemma {:induction false} MemberAccepted(t: string, i: nat, e: Entry, d: nat, room: nat)
    requires At(t, i, Core(true, e)) && WellFormedEntry(true, e) && d + 1 + Height(e.value) <= MAX_DEPTH
    requires Size(NodeOfEntry(true, e, i)) <= room && Follows(t, i + |Core(true, e)|)
    ensures ParseItem(t, i, d, true, room) == Good(NodeOfEntry(true, e, i), i + |Core(true, e)|)
    decreases e, 1
  {
    hide ParseValue, ParseItem, ParseString, Print, Height, NodeOf, SkipSpace, StringEnd, At, Core, Size;
    hide Spaces, WellFormed, IsBody, Follows, Closing;
    EntryPieces(t, i, true, e);
    var j := i + |e.before|;
    SpacesSkipped(t, i, e.before);
    KeyAccepted(t, j, e.name, room);
    var close := j + 2 + |e.name|;
    var k := close + |e.afterName|;
    SpacesSkipped(t, close, e.afterName);
    var value := NodeOf(e.value, k + 1 + |e.gap|);
    OneSize(value);
    var node := Node(String, j + 1, j + 1 + |e.name|, [value]);
    assert NodeOfEntry(true, e, i) == node;
    KeyedSize(node);
    CoreLength(e);
    ValueAccepted(t, k + 1, e.gap, e.value, d + 1, room - 1);
    KeyedItem(t, i, d, room, Node(String, j + 1, j + 1 + |e.name|, []), close, value, i + |Core(true, e)|);
  }

  lemma CoreLength(e: Entry)
    ensures |Core(true, e)| == |e.before| + 2 + |e.name| + |e.afterName| + 1 + |e.gap| + |Print(e.value)|
  {
    hide Print;
  }

  lemma KeyAccepted(t: string, j: nat, name: string, room: nat)
    requires j < |t| && t[j] == '"' && At(t, j + 1, name + "\"") && IsBody(name) && room > 0
    ensures ParseString(t, j, room) == Good(Node(String, j + 1, j + 1 + |name|, []), j + 2 + |name|)
  {
    hide StringEnd, At;
    BodyIff(name);
    BodyCloses(t, j + 1, name + "\"", 0);
  }

  lemma KeyedSize(n: Node)
    ensures Size(n) == 1 + Sizes(n.kids)
  {
  }

  /** A key, a colon and a value make an item. */
  lemma KeyedItem(t: string, i: nat, d: nat, room: nat, key: Node, close: nat, value: Node, end: nat)
    requires i <= |t| && SkipSpace(t, i) < |t| && t[SkipSpace(t, i)] == '"'
    requires ParseString(t, SkipSpace(t, i), room) == Good(key, close)
    requires close <= |t| && SkipSpace(t, close) < |t| && t[SkipSpace(t, close)] == ':' && room > 0
    requires ParseValue(t, SkipSpace(t, close) + 1, d + 1, room - 1) == Good(value, end)
    ensures ParseItem(t, i, d, true, room) == Good(key.(kids := [value]), end)
  {
    hide ParseValue, ParseString, SkipSpace;
  }

  lemma OneSize(n: Node)
    ensures Sizes([n]) == Size(n)
  {
    assert [n][1..] == [];
  }

  lemma {:induction false} EntryAccepted(t: string, i: nat, braced: bool, e: Entry, d: nat, room: nat)
    requires At(t, i, Core(braced, e)) && WellFormedEntry(braced, e) && d + 1 + Height(e.value) <= MAX_DEPTH
    requires Size(NodeOfEntry(braced, e, i)) <= room && Follows(t, i + |Core(braced, e)|)
    ensures ParseItem(t, i, d, braced, room) == Good(NodeOfEntry(braced, e, i), i + |Core(braced, e)|)
    decreases e, 2
  {
    hide ParseValue, Print, Height, NodeOf, SkipSpace;
    if braced {
      MemberAccepted(t, i, e, d, room);
    } else {
      EntryPieces(t, i, braced, e);
      SpacesJoin(e.before, e.gap);
      ValueAccepted(t, i, e.before + e.gap, e.value, d + 1, room);
    }
  }

  lemma {:induction false} ItemsAccepted(t: string, i: nat, braced: bool, es: seq<Entry>, d: nat, room: nat)
    requires At(t, i, PrintEntries(braced, es)) && es != [] && forall k :: 0 <= k < |es| ==> WellFormedEntry(braced, es[k])
    requires d + Heights(es) <= MAX_DEPTH && Sizes(NodesOf(braced, es, i)) <= room
    requires var e := i + |PrintEntries(braced, es)|; e < |t| && t[e] == Closing(braced)
    ensures ParseItems(t, i, d, braced, room)
         == GoodAll(NodesOf(braced, es, i), i + |PrintEntries(braced, es)| + 1)
    decreases es, 3
  {
    hide ParseItem, ParseItems, PrintEntries, Height, Heights, NodeOfEntry, NodesOf, Core, SkipSpace, WellFormedEntry;
    hide Size, Sizes, Closing, Print, PrintEntry, Spaces, At;
    hide At, Spaces, PrintEntry, Print;
    var e := es[0];
    HeightSplits(es);
    NodesUnfold(braced, es, i);
    FirstItem(t, i, braced, es, d, room);
    var item, end := NodeOfEntry(braced, e, i), i + |Core(braced, e)|;
    AfterSpaces(braced, e);
    if |es| > 1 {
      ItemsAccepted(t, end + |e.after| + 1, braced, es[1..], d, room - Size(item));
      ItemThenItems(t, i, d, braced, room, item, end);
    } else {
      LastItem(t, i, d, braced, room, item, end);
    }
  }

  /** The first of some entries, and what stands behind it. */
  lemma {:induction false} FirstItem(t: string, i: nat, braced: bool, es: seq<Entry>, d: nat, room: nat)
    requires At(t, i, PrintEntries(braced, es)) && es != [] && WellFormedEntry(braced, es[0])
    requires d + 1 + Height(es[0].value) <= MAX_DEPTH && Size(NodeOfEntry(braced, es[0], i)) <= room
    requires var e := i + |PrintEntries(braced, es)|; e < |t| && t[e] == Closing(braced)
    ensures var item, end := NodeOfEntry(braced, es[0], i), i + |Core(braced, es[0])|;
            var k := end + |es[0].after|;
            && SkipSpace(t, i) < |t| && ParseItem(t, i, d, braced, room) == Good(item, end)
            && end <= |t| && SkipSpace(t, end) == k < |t|
            && (if |es| == 1 then k == i + |PrintEntries(braced, es)|
                else t[k] == ',' && At(t, k + 1, PrintEntries(braced, es[1..]))
                     && k + 1 + |PrintEntries(braced, es[1..])| == i + |PrintEntries(braced, es)|)
    decreases es, 2
  {
    hide ParseItem, PrintEntries, Height, NodeOfEntry, Core, SkipSpace, WellFormedEntry, Size, At, Spaces, PrintEntry, Print;
    var e := es[0];
    var end := i + |Core(braced, e)|;
    EntriesPieces(t, i, braced, es);
    EntriesStart(t, i, braced, es);
    AfterSpaces(braced, e);
    if e.after != "" { AtChar(t, end, e.after, 0); }
    EntryAccepted(t, i, braced, e, d, room);
    SpacesSkipped(t, end, e.after);
  }

  /** An item, a comma, and what the items after it come to. */
  lemma ItemThenItems(t: string, i: nat, d: nat, braced: bool, room: nat, item: Node, end: nat)
    requires i <= |t| && SkipSpace(t, i) < |t| && ParseItem(t, i, d, braced, room) == Good(item, end)
    requires SkipSpace(t, end) < |t| && t[SkipSpace(t, end)] == ','
    requires ParseItems(t, SkipSpace(t, end) + 1, d, braced, room - Size(item)).GoodAll?
    ensures var rest := ParseItems(t, SkipSpace(t, end) + 1, d, braced, room - Size(item));
            ParseItems(t, i, d, braced, room) == GoodAll([item] + rest.nodes, rest.pos)
  {
    hide ParseItem, SkipSpace, Size;
  }

  lemma LastItem(t: string, i: nat, d: nat, braced: bool, room: nat, item: Node, end: nat)
    requires i <= |t| && SkipSpace(t, i) < |t| && ParseItem(t, i, d, braced, room) == Good(item, end)
    requires SkipSpace(t, end) < |t| && t[SkipSpace(t, end)] == Closing(braced)
    ensures ParseItems(t, i, d, braced, room) == GoodAll([item], SkipSpace(t, end) + 1)
  {
    hide ParseItem, SkipSpace, Size;
  }

  lemma AfterSpaces(braced: bool, e: Entry)
    requires WellFormedEntry(braced, e)
    ensures Spaces(e.after) && |PrintEntry(braced, e)| == |Core(braced, e)| + |e.after|
  {
  }

  lemma NodesUnfold(braced: bool, es: seq<Entry>, at: nat)
    requires es != []
    ensures var n := NodeOfEntry(braced, es[0], at);
            var ns := if |es| == 1 then [] else NodesOf(braced, es[1..], at + |PrintEntry(braced, es[0])| + 1);
            NodesOf(braced, es, at) == [n] + ns && Sizes(NodesOf(braced, es, at)) == Size(n) + Sizes(ns)
  {
    hide NodeOfEntry, PrintEntry;
    assert (NodesOf(braced, es, at))[1..] == NodesOf(braced, es[1..], at + |PrintEntry(braced, es[0])| + 1);
  }

  /** A document within the nesting and token limits, white space around it, tokenizes to its tree. */
  lemma DocumentAccepted(before: string, v: Json, after: string, room: nat)
    requires Spaces(before) && Spaces(after) && WellFormed(v) && Height(v) <= MAX_DEPTH
    requires Size(NodeOf(v, |before|)) <= room
    ensures ParseDocument(before + Print(v) + after, room) == Accepted(NodeOf(v, |before|))
  {
    hide ParseValue, Print, Height, At, Spaces, NodeOf, SkipSpace, WellFormed, Size;
    var t := before + Print(v) + after;
    var e := |before + Print(v)|;
    AtEnds(before + Print(v), after);
    if after != "" { AtChar(t, e, after, 0); }
    AfterIsSpace(after);
    ValueAccepted(t, 0, before, v, 0, room);
    SpacesSkipped(t, e, after);
  }

  lemma AtEnds(a: string, b: string)
    ensures At(a + b, 0, a) && At(a + b, |a|, b)
  {
  }

  lemma AfterIsSpace(s: string)
    requires Spaces(s)
    ensures s != "" ==> EndsPrimitive(s[0])
  {
  }
}
