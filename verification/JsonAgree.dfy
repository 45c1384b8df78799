/** The tokenizer and the shallow scanner agree on every value of an accepted text, at any depth. */
module JsonAgree {
  import opened JsonText
  import opened JsonTree
  import opened JsonParser
  import opened JsonScan

  /** Where a node begins and ends in the text, quotes included. */
  function RawStart(n: Node): int {
    if n.kind == String then n.start - 1 else n.start
  }

  function RawEnd(n: Node): nat {
    if n.kind == String then n.end + 1 else n.end
  }

  /** The node read as a value of its own: a key without the value it leads to. */
  function Own(n: Node): Node {
    if n.kind == String then n.(kids := []) else n
  }

  ghost predicate ParsesAs(t: string, n: Node, d: nat, room: nat) {
    0 <= RawStart(n) <= |t| && ParseValue(t, RawStart(n), d, room) == Good(Own(n), RawEnd(n))
  }

  /** The node is what the tokenizer reads at its own place. */
  ghost predicate Located(t: string, n: Node) {
    exists d, room :: ParsesAs(t, n, d, room)
  }

  ghost predicate Placed(t: string, n: Node) {
    Located(t, n) && forall i :: 0 <= i < |n.kids| ==> Placed(t, n.kids[i])
  }

  // ------------------------------------------------------------- every node is read at its own place

  lemma ValueStarts(t: string, i: nat, d: nat, room: nat)
    requires i <= |t| && ParseValue(t, i, d, room).Good?
    ensures var p := ParseValue(t, i, d, room);
            && RawStart(p.node) == SkipSpace(t, i) && RawEnd(p.node) == p.pos && Own(p.node) == p.node
            && ParseValue(t, SkipSpace(t, i), d, room) == p
  {
    hide ParseItems;
    ValueSkips(t, i, d, room);
  }

  lemma {:induction false} ValuePlaces(t: string, i: nat, d: nat, room: nat)
    requires i <= |t| && ParseValue(t, i, d, room).Good?
    ensures Placed(t, ParseValue(t, i, d, room).node)
    decreases |t| - i, 1
  {
    hide ParseItems;
    var n := ParseValue(t, i, d, room).node;
    ValueStarts(t, i, d, room);
    assert ParsesAs(t, n, d, room);
    var j := SkipSpace(t, i);
    if n.kids != [] {
      var k := SkipSpace(t, j + 1);
      ItemsPlace(t, k, d, t[j] == '{', room - 1);
    }
  }

  /** A key read as a value of its own. */
  lemma KeyParses(t: string, i: nat, d: nat, room: nat)
    requires i <= |t| && ParseItem(t, i, d, true, room).Good?
    ensures ParsesAs(t, ParseItem(t, i, d, true, room).node, 0, room)
  {
    hide ParseItems, ParseContainer, StringEnd, SkipSpace;
    var j := SkipSpace(t, i);
    assert SkipSpace(t, j) == j;
  }

  lemma {:induction false} ItemPlaces(t: string, i: nat, d: nat, braced: bool, room: nat)
    requires i <= |t| && ParseItem(t, i, d, braced, room).Good?
    ensures Placed(t, ParseItem(t, i, d, braced, room).node)
    decreases |t| - i, 2
  {
    hide ParseItems, ParseValue, ParseContainer, SkipSpace, StringEnd;
    if braced {
      var n := ParseItem(t, i, d, braced, room).node;
      var j := SkipSpace(t, i);
      var k := SkipSpace(t, ParseString(t, j, room).pos);
      ValuePlaces(t, k + 1, d + 1, room - 1);
      KeyParses(t, i, d, room);
    } else {
      ValuePlaces(t, i, d + 1, room);
    }
  }

  lemma {:induction false} ItemsPlace(t: string, i: nat, d: nat, braced: bool, room: nat)
    requires i <= |t| && ParseItems(t, i, d, braced, room).GoodAll?
    ensures var ns := ParseItems(t, i, d, braced, room).nodes; forall k :: 0 <= k < |ns| ==> Placed(t, ns[k])
    decreases |t| - i, 3
  {
    hide ParseItem, ParseItems, Placed, Size, Closing, SkipSpace;
    ItemsSplit(t, i, d, braced, room);
    ItemPlaces(t, i, d, braced, room);
    var item := ParseItem(t, i, d, braced, room);
    var k := SkipSpace(t, item.pos);
    if t[k] == ',' {
      ItemsPlace(t, k + 1, d, braced, room - Size(item.node));
    }
  }

  // ----------------------------------------------------------------------------- tokens against scans

  /** What a scan at a token's raw start must report about it. */
  function Reported(tok: Token): Token {
    tok.(parent := -1, size := if tok.kind == String then 0 else tok.size)
  }

  ghost predicate ScansTo(t: string, tok: Token) {
    var start := if tok.kind == String then tok.start - 1 else tok.start;
    var next := if tok.kind == String then tok.end + 1 else tok.end;
    0 <= start <= |t| && 0 <= next && Scan(t, start) == Seen(Reported(tok), next)
  }

  lemma LocatedScans(t: string, n: Node)
    requires Located(t, n)
    ensures 0 <= RawStart(n) <= |t| && Scan(t, RawStart(n)) == Seen(Shallow(n), RawEnd(n))
  {
    var d, room :| ParsesAs(t, n, d, room);
    ScanMatchesParse(t, RawStart(n), d, room);
  }

  lemma {:induction false} TokensScan(t: string, n: Node, parent: int, base: nat)
    requires Placed(t, n)
    ensures forall k :: 0 <= k < Size(n) ==> ScansTo(t, Flatten(n, parent, base)[k])
    decreases n, 1
  {
    hide Scan, Size, Sizes, FlattenAll, Located;
    LocatedScans(t, n);
    AllTokensScan(t, n.kids, base, base + 1);
    var rest := FlattenAll(n.kids, base, base + 1);
    forall k | 0 <= k < Size(n) ensures ScansTo(t, Flatten(n, parent, base)[k]) {
      if k > 0 {
        assert Flatten(n, parent, base)[k] == rest[k - 1];
      }
    }
  }

  lemma {:induction false} AllTokensScan(t: string, ns: seq<Node>, parent: int, base: nat)
    requires forall i :: 0 <= i < |ns| ==> Placed(t, ns[i])
    ensures forall k :: 0 <= k < Sizes(ns) ==> ScansTo(t, FlattenAll(ns, parent, base)[k])
    decreases ns, 0
  {
    hide Placed, ScansTo, Size, Sizes, Flatten;
    if ns != [] {
      TokensScan(t, ns[0], parent, base);
      AllTokensScan(t, ns[1..], parent, base + Size(ns[0]));
    }
  }

  /** On an accepted text, a scan at any token's raw start returns that token's type, span and child count. */
  lemma ScannerAgrees(t: string, room: nat)
    requires ParseDocument(t, room).Accepted?
    ensures var tokens := Flatten(ParseDocument(t, room).root, -1, 0);
            forall k :: 0 <= k < |tokens| ==> ScansTo(t, tokens[k])
  {
    ValuePlaces(t, 0, 0, room);
    TokensScan(t, ParseDocument(t, room).root, -1, 0);
  }
}
