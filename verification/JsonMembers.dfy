/** Looking up a member of a printed object gives the first value printed under that name. */
module JsonMembers {
  import opened Status
  import opened JsonTree
  import opened JsonTokens
  import opened JsonPrint

  /** The position of the first entry with this name. */
  function FirstEntry(es: seq<Entry>, name: string): (i: nat)
    ensures i <= |es| && (i < |es| ==> es[i].name == name) && forall j :: 0 <= j < i ==> es[j].name != name
  {
    if es == [] || es[0].name == name then 0 else 1 + FirstEntry(es[1..], name)
  }

  /** Where the value of an entry begins. */
  function ValueStart(e: Entry, at: nat): nat {
    at + |e.before| + 2 + |e.name| + |e.afterName| + 1 + |e.gap|
  }

  lemma EntryPlaced(t: string, at: nat, e: Entry)
    requires At(t, at, Core(true, e))
    ensures var n := NodeOfEntry(true, e, at);
            && n == Node(String, n.start, n.start + |e.name|, [NodeOf(e.value, ValueStart(e, at))])
            && At(t, n.start, e.name) && At(t, ValueStart(e, at), Print(e.value))
  {
    hide Print, NodeOf;
    EntryPieces(t, at, true, e);
    var j := at + |e.before|;
    AtSplit(t, j + 1, e.name, "\"");
    AtSplit(t, j + 3 + |e.name| + |e.afterName|, e.gap, Print(e.value));
  }

  /** Where entry i of a list printed at `at` begins. */
  function EntryStart(es: seq<Entry>, at: nat, i: nat): nat
    requires i < |es|
  {
    if i == 0 then at else EntryStart(es[1..], at + |PrintEntry(true, es[0])| + 1, i - 1)
  }

  /** Entry i of a printed list, in its place. */
  lemma {:induction false} EntryAt(t: string, at: nat, es: seq<Entry>, i: nat)
    requires At(t, at, PrintEntries(true, es)) && i < |es|
    ensures var ns, p := NodesOf(true, es, at), EntryStart(es, at, i);
            |ns| == |es| && ns[i] == NodeOfEntry(true, es[i], p) && At(t, p, Core(true, es[i]))
    decreases |es|
  {
    hide PrintEntries, NodeOfEntry, Core, PrintEntry, NodesOf, At;
    EntriesPieces(t, at, true, es);
    NodesUnfold(true, es, at);
    PrintedLength(es[0]);
    NodesCount(es, at);
    if i > 0 {
      EntryAt(t, at + |PrintEntry(true, es[0])| + 1, es[1..], i - 1);
    }
  }

  lemma PrintedLength(e: Entry)
    ensures |PrintEntry(true, e)| == |Core(true, e)| + |e.after|
  {
    CoreIsPrefix(true, e);
  }

  lemma {:induction false} NodesCount(es: seq<Entry>, at: nat)
    ensures |NodesOf(true, es, at)| == |es|
  {
    hide PrintEntry, NodeOfEntry;
    if es != [] {
      NodesCount(es[1..], at + |PrintEntry(true, es[0])| + 1);
    }
  }

  lemma {:induction false} KeysAre(t: string, at: nat, es: seq<Entry>)
    requires At(t, at, PrintEntries(true, es))
    ensures |NodesOf(true, es, at)| == |es| && AreKeys(NodesOf(true, es, at))
  {
    hide NodesOf, NodeOfEntry, PrintEntries;
    var ns := NodesOf(true, es, at);
    NodesCount(es, at);
    forall i | 0 <= i < |ns|
      ensures ns[i].kind == String && |ns[i].kids| == 1
    {
      EntryAt(t, at, es, i);
      EntryPlaced(t, EntryStart(es, at, i), es[i]);
    }
  }

  /** The tokenizer's first key with a name is the first entry with it. */
  lemma FirstNamedIs(t: string, at: nat, es: seq<Entry>, name: string)
    requires At(t, at, PrintEntries(true, es))
    ensures FirstNamed(t, NodesOf(true, es, at), name) == FirstEntry(es, name)
  {
    hide NodesOf, NodeOfEntry, PrintEntries, FirstNamed, FirstEntry, Core;
    var ns := NodesOf(true, es, at);
    NodesCount(es, at);
    forall i | 0 <= i < |ns|
      ensures HasName(t, ns[i], name) <==> es[i].name == name
    {
      EntryAt(t, at, es, i);
      EntryPlaced(t, EntryStart(es, at, i), es[i]);
    }
    FirstNamedIsFirst(t, ns, name);
  }

  /** In a forest of keys, the token of a key's value stands right behind it. */
  lemma {:induction false} ValueToken(ts: seq<Token>, at: int, keys: seq<Node>, i: nat, parent: int, base: nat)
    requires ForestAt(ts, at, keys, parent, base) && AreKeys(keys) && i < |keys|
    ensures var v, k := keys[i].kids[0], at + Sizes(keys[..i]) + 1;
            0 <= k < |ts| && ts[k].kind == v.kind && ts[k].start == v.start && ts[k].end == v.end
    decreases i
  {
    ForestSplits(ts, at, keys, parent, base);
    if i == 0 {
      TreeSplits(ts, at, keys[0], parent, base);
      ForestSplits(ts, at + 1, keys[0].kids, base, base + 1);
      TreeSplits(ts, at + 1, keys[0].kids[0], base, base + 1);
      assert keys[..0] == [];
    } else {
      assert keys[..i][1..] == keys[1..][..i - 1] && keys[..i][0] == keys[0];
      ValueToken(ts, at + Size(keys[0]), keys[1..], i - 1, parent, base + Size(keys[0]));
    }
  }

  /** The token looked up belongs to the value of the first entry with the name; there is none without one. */
  lemma MemberFound(t: string, v: Json, name: string, ts: seq<Token>)
    requires v.Box? && v.braced && v.entries != [] && At(t, 0, Print(v)) && ts == Flatten(NodeOf(v, 0), -1, 0)
    ensures var i := FirstEntry(v.entries, name);
            var got := ObjectGet(t, ts, 0, name);
            if i == |v.entries| then got == ERR_MISSING
            else
              var p := ValueStart(v.entries[i], EntryStart(v.entries, 1, i));
              var n := NodeOf(v.entries[i].value, p);
              && 0 <= got < |ts| && ts[got].kind == n.kind && ts[got].start == n.start && ts[got].end == n.end
              && At(t, p, Print(v.entries[i].value))
  {
    hide NodesOf, NodeOfEntry, PrintEntries, FirstNamed, FirstEntry, Core, ObjectGet, ValueStart, EntryStart;
    var es, n := v.entries, NodeOf(v, 0);
    var body := PrintEntries(true, es);
    AtSplit(t, 0, ['{'] + body, ['}']);
    AtSplit(t, 0, ['{'], body);
    KeysAre(t, 1, es);
    FirstNamedIs(t, 1, es, name);
    assert ts[0..Size(n)] == ts;
    ObjectGetFinds(t, ts, 0, n, name, -1, 0);
    TreeSplits(ts, 0, n, -1, 0);
    var i := FirstEntry(es, name);
    if i < |es| {
      ValueToken(ts, 1, n.kids, i, 0, 1);
      EntryAt(t, 1, es, i);
      EntryPlaced(t, EntryStart(es, 1, i), es[i]);
    }
  }
}
