/** On parsed objects and arrays, walking with the scanner gives what the token array gives. */
module JsonWalks {
  import opened Status
  import opened JsonText
  import opened JsonTree
  import opened JsonScan
  import opened JsonLimit
  import opened JsonTokens
  import opened JsonAgree
  import opened JsonIterate

  lemma SkipTwice(t: string, i: nat)
    requires i <= |t|
    ensures SkipSpace(t, SkipSpace(t, i)) == SkipSpace(t, i)
    ensures Scan(t, SkipSpace(t, i)) == Scan(t, i)
  {
  }

  // ---------------------------------------------------------------------------------------- objects

  /** The pieces of a parsed member, and what scanning makes of them. */
  lemma MemberParts(t: string, i: nat, d: nat, room: nat)
    requires i <= |t| && ParseItem(t, i, d, true, room).Good?
    ensures var n, j := ParseItem(t, i, d, true, room).node, SkipSpace(t, i);
            && j < |t| && t[j] == '"' && n.kind == String && |n.kids| == 1 && Own(n.kids[0]) == n.kids[0]
            && Scan(t, j) == Seen(Token(String, n.start, n.end, 0, -1), n.end + 1)
            && n.start <= n.end < |t|
            && var k := SkipSpace(t, n.end + 1);
               k < |t| && t[k] == ':' && Scan(t, k + 1) == Seen(Shallow(n.kids[0]), ParseItem(t, i, d, true, room).pos)
  {
    hide ParseItems, ParseContainer, ParseValue, Walk, PrimitiveEnd, CheckPrimitive, SkipSpace, RawStart;
    var j := SkipSpace(t, i);
    var key := ParseString(t, j, room);
    var k := SkipSpace(t, key.pos);
    ScanMatchesParse(t, k + 1, d + 1, room - 1);
    ValueStarts(t, k + 1, d + 1, room - 1);
    assert SkipSpace(t, j) == j;
  }

  /** The value already matched, or else that of the first member with the name. */
  function Verdict(t: string, keys: seq<Node>, found: Found, name: string): Found
    requires AreKeys(keys)
  {
    if found != Missing then found
    else
      var i := FirstNamed(t, keys, name);
      if i < |keys| then Value(Shallow(keys[i].kids[0])) else Missing
  }

  /** No member's value is itself a key. */
  ghost predicate PlainValues(keys: seq<Node>)
    requires AreKeys(keys)
  {
    forall j :: 0 <= j < |keys| ==> Own(keys[j].kids[0]) == keys[j].kids[0]
  }

  lemma {:induction false} ItemsAreKeys(t: string, i: nat, d: nat, room: nat)
    requires i <= |t| && ParseItems(t, i, d, true, room).GoodAll?
    ensures AreKeys(ParseItems(t, i, d, true, room).nodes) && PlainValues(ParseItems(t, i, d, true, room).nodes)
    decreases |t| - i
  {
    hide ParseItem, ParseItems, Scan, SkipSpace, Shallow;
    ItemsSplit(t, i, d, true, room);
    MemberParts(t, i, d, room);
    var item := ParseItem(t, i, d, true, room);
    var k := SkipSpace(t, item.pos);
    if t[k] == ',' {
      ItemsAreKeys(t, k + 1, d, room - Size(item.node));
    }
  }

  lemma {:induction false} MembersFind(t: string, i: nat, d: nat, room: nat, found: Found, name: string)
    requires i <= |t| && ParseItems(t, i, d, true, room).GoodAll? && ParseItems(t, i, d, true, room).pos == |t|
    requires found != Malformed
    ensures var keys := ParseItems(t, i, d, true, room).nodes;
            && AreKeys(keys) && SkipSpace(t, i) < |t|
            && ScanMember(t, SkipSpace(t, i), found, name) == Verdict(t, keys, found, name)
    decreases |t| - i
  {
    hide ParseItem, ParseItems, Scan, SkipSpace, Shallow, Size, ScanMember, ScanMembers, Verdict;
    ItemsAreKeys(t, i, d, room);
    ItemsSplit(t, i, d, true, room);
    MemberParts(t, i, d, room);
    var keys := ParseItems(t, i, d, true, room).nodes;
    var item := ParseItem(t, i, d, true, room);
    var found' := After(t, item.node, found, name);
    MemberScanned(t, i, d, room, found, name);
    VerdictStep(t, keys, found, name);
    var k := SkipSpace(t, item.pos);
    if t[k] == ',' {
      MembersFind(t, k + 1, d, room - Size(item.node), found', name);
      MembersGoOn(t, item.pos, found', name);
    } else {
      assert keys[1..] == [];
      VerdictNothing(t, found', name);
      MembersEnd(t, item.pos, found', name);
    }
  }

  /** What is found once a member has been looked at. */
  function After(t: string, key: Node, found: Found, name: string): Found
    requires |key.kids| == 1
  {
    if found == Missing && HasName(t, key, name) then Value(Shallow(key.kids[0])) else found
  }

  lemma VerdictStep(t: string, keys: seq<Node>, found: Found, name: string)
    requires AreKeys(keys) && keys != []
    ensures Verdict(t, keys, found, name) == Verdict(t, keys[1..], After(t, keys[0], found, name), name)
  {
    hide HasName, Shallow;
  }

  lemma VerdictNothing(t: string, found: Found, name: string)
    ensures Verdict(t, [], found, name) == found
  {
  }

  lemma MemberScanned(t: string, i: nat, d: nat, room: nat, found: Found, name: string)
    requires i <= |t| && ParseItem(t, i, d, true, room).Good? && |ParseItem(t, i, d, true, room).node.kids| == 1
    requires found != Malformed
    ensures var item := ParseItem(t, i, d, true, room);
            && SkipSpace(t, i) < |t|
            && ScanMember(t, SkipSpace(t, i), found, name)
               == ScanMembers(t, item.pos, false, After(t, item.node, found, name), name)
  {
    hide ParseItem, Scan, SkipSpace, Shallow, ScanMembers;
    MemberParts(t, i, d, room);
  }

  lemma MembersGoOn(t: string, i: nat, found: Found, name: string)
    requires i <= |t| && SkipSpace(t, i) < |t| && t[SkipSpace(t, i)] == ','
    requires SkipSpace(t, SkipSpace(t, i) + 1) < |t|
    ensures ScanMembers(t, i, false, found, name) == ScanMember(t, SkipSpace(t, SkipSpace(t, i) + 1), found, name)
  {
    hide SkipSpace, ScanMember;
  }

  lemma MembersEnd(t: string, i: nat, found: Found, name: string)
    requires i <= |t| && SkipSpace(t, i) + 1 == |t| && t[SkipSpace(t, i)] == '}'
    ensures ScanMembers(t, i, false, found, name) == found
  {
    hide SkipSpace, ScanMember;
  }

  /** What the tokenizer found inside an object or array, read from a text cut off at its end. */
  lemma Inside(js: string, n: Node)
    requires Located(js, n) && (n.kind == Object || n.kind == Array)
    ensures n.start < n.end <= |js|
    ensures var t, braced := js[..n.end], n.kind == Object;
            var k := SkipSpace(t, n.start + 1);
            && k < |t|
            && if n.kids == [] then t[k] == Closing(braced) && k + 1 == |t|
               else t[k] != Closing(braced)
                    && exists d, room :: ParseItems(t, k, d, braced, room) == GoodAll(n.kids, |t|)
  {
    hide ParseItems, StringEnd, PrimitiveEnd, CheckPrimitive, Closing, SkipSpace, Scan;
    var d: nat, room: nat :| ParsesAs(js, n, d, room);
    ValueStarts(js, n.start, d, room);
    ValueCut(js, n.start, d, room, n.end);
    var t, braced := js[..n.end], n.kind == Object;
    SkipTwice(js, n.start);
    SkipSpaceCut(js, n.start, n.end);
    assert ParseContainer(t, n.start, d, room) == Good(n, n.end);
    var k := SkipSpace(t, n.start + 1);
    if n.kids != [] {
      assert ParseItems(t, k, d, braced, room - 1) == GoodAll(n.kids, |t|);
    } else {
      NoEmptyItems(t, k, d, braced, room - 1);
    }
  }

  lemma NoEmptyItems(t: string, i: nat, d: nat, braced: bool, room: nat)
    requires i <= |t|
    ensures ParseItems(t, i, d, braced, room).GoodAll? ==> ParseItems(t, i, d, braced, room).nodes != []
  {
    hide ParseItem;
  }

  lemma {:induction false} NamesCut(js: string, l: nat, keys: seq<Node>, name: string)
    requires l <= |js| && forall i :: 0 <= i < |keys| ==> keys[i].end <= l
    ensures FirstNamed(js[..l], keys, name) == FirstNamed(js, keys, name)
  {
    if keys != [] {
      if keys[0].kind == String && keys[0].start <= keys[0].end {
        assert js[..l][keys[0].start..keys[0].end] == js[keys[0].start..keys[0].end];
      }
      NamesCut(js, l, keys[1..], name);
    }
  }

  lemma {:induction false} ItemsEndInside(t: string, i: nat, d: nat, room: nat)
    requires i <= |t| && ParseItems(t, i, d, true, room).GoodAll?
    ensures var ns := ParseItems(t, i, d, true, room).nodes; forall k :: 0 <= k < |ns| ==> ns[k].end <= |t|
    decreases |t| - i
  {
    hide ParseItem, ParseItems, Scan, SkipSpace, Shallow;
    ItemsSplit(t, i, d, true, room);
    MemberParts(t, i, d, room);
    var item := ParseItem(t, i, d, true, room);
    var k := SkipSpace(t, item.pos);
    if t[k] == ',' {
      ItemsEndInside(t, k + 1, d, room - Size(item.node));
    }
  }

  /** The scanner's lookup gives the value of the first member with the name, duplicates or not. */
  lemma ScanKeyFinds(js: string, n: Node, name: string)
    requires Located(js, n) && n.kind == Object
    ensures AreKeys(n.kids) && PlainValues(n.kids) && n.start < n.end <= |js|
    ensures ScanKey(js, Token(Object, n.start, n.end, |n.kids|, -1), name) == Verdict(js, n.kids, Missing, name)
  {
    hide ParseItems, Scan, SkipSpace, FirstNamed, Located, ScanMember;
    Inside(js, n);
    var t := js[..n.end];
    var k := SkipSpace(t, n.start + 1);
    if n.kids != [] {
      var d: nat, room: nat :| ParseItems(t, k, d, true, room) == GoodAll(n.kids, |t|);
      ItemsAreKeys(t, k, d, room);
      ItemsEndInside(t, k, d, room);
      MembersFind(t, k, d, room, Missing, name);
      SkipTwice(t, n.start + 1);
      NamesCut(js, n.end, n.kids, name);
    } else {
      assert FirstNamed(js, [], name) == 0 by { FirstNamedIsFirst(js, [], name); }
    }
  }

  // ----------------------------------------------------------------------------------------- arrays

  /** From this cursor, repeated steps yield exactly these elements in order, and then the end for ever. */
  ghost predicate Yields(js: string, arr: Token, cursor: nat, elements: seq<Node>)
    requires arr.kind == Array && 0 <= arr.start < arr.end <= |js| && cursor <= arr.end
    decreases |elements|
  {
    var next := ScanNext(js, arr, cursor);
    if elements == [] then
      next.Finished? && next.cursor <= arr.end && ScanNext(js, arr, next.cursor) == next
    else
      && next.Element? && next.token == Shallow(elements[0]) && next.cursor <= arr.end
      && Yields(js, arr, next.cursor, elements[1..])
  }

  /** An element scanned where the tokenizer found it. */
  lemma ElementScans(t: string, i: nat, d: nat, room: nat)
    requires i <= |t| && ParseItem(t, i, d, false, room).Good?
    ensures var p, j := ParseItem(t, i, d, false, room), SkipSpace(t, i);
            && j < |t| && t[j] != ']' && t[j] != ',' && ScanElement(t, j) == Element(Shallow(p.node), p.pos)
  {
    hide ParseContainer, Walk;
    ScanMatchesParse(t, i, d + 1, room);
    SkipTwice(t, i);
  }

  /** The first of some elements, and after it the remaining ones. */
  lemma {:induction false} ElementsYield(js: string, arr: Token, i: nat, d: nat, room: nat)
    requires arr.kind == Array && 0 <= arr.start < arr.end <= |js| && i <= arr.end
    requires var p := ParseItems(js[..arr.end], i, d, false, room); p.GoodAll? && p.pos == arr.end
    ensures var t := js[..arr.end]; var elements := ParseItems(t, i, d, false, room).nodes;
            && elements != [] && var j := SkipSpace(t, i);
               && j < |t| && t[j] != ']' && t[j] != ','
               && var next := ScanElement(t, j);
                  && next.Element? && next.token == Shallow(elements[0]) && 0 < next.cursor <= arr.end
                  && Yields(js, arr, next.cursor, elements[1..])
    decreases arr.end - i
  {
    hide ParseItem, ParseItems, Scan, ScanNext, ScanElement, SkipSpace, Size, Shallow, Yields;
    var t := js[..arr.end];
    ItemsSplit(t, i, d, false, room);
    ElementScans(t, i, d, room);
    var item := ParseItem(t, i, d, false, room);
    var k := SkipSpace(t, item.pos);
    if t[k] == ',' {
      var rest := ParseItems(t, k + 1, d, false, room - Size(item.node)).nodes;
      ElementsYield(js, arr, k + 1, d, room - Size(item.node));
      LaterYields(js, arr, item.pos, k, rest);
      assert ([item.node] + rest)[1..] == rest;
    } else {
      NothingYields(js, arr, item.pos, k);
      assert [item.node][1..] == [];
    }
  }

  /** Behind an element the next one is the one at the first byte after the comma that is no space. */
  lemma LaterYields(js: string, arr: Token, cursor: nat, k: nat, elements: seq<Node>)
    requires arr.kind == Array && 0 <= arr.start < arr.end <= |js| && elements != []
    requires 0 < cursor <= arr.end
    requires var t := js[..arr.end]; SkipSpace(t, cursor) == k < |t| && t[k] == ','
    requires var t := js[..arr.end]; var j := SkipSpace(t, k + 1);
             && j < |t| && t[j] != ']' && t[j] != ','
             && var next := ScanElement(t, j);
                && next.Element? && next.token == Shallow(elements[0]) && next.cursor <= arr.end
                && Yields(js, arr, next.cursor, elements[1..])
    ensures Yields(js, arr, cursor, elements)
  {
    hide ScanNext, SkipSpace, ScanElement, Shallow;
    LaterNext(js, arr, cursor, k);
  }

  lemma LaterNext(js: string, arr: Token, cursor: nat, k: nat)
    requires arr.kind == Array && 0 <= arr.start < arr.end <= |js| && 0 < cursor <= arr.end
    requires var t := js[..arr.end]; SkipSpace(t, cursor) == k < |t| && t[k] == ','
    requires var t := js[..arr.end]; var j := SkipSpace(t, k + 1); j < |t| && t[j] != ']' && t[j] != ','
    ensures ScanNext(js, arr, cursor) == ScanElement(js[..arr.end], SkipSpace(js[..arr.end], k + 1))
  {
    hide SkipSpace, ScanElement;
  }

  /** Stepping through a parsed array from cursor 0 yields its children, each once, in order. */
  lemma ScanNextYields(js: string, n: Node)
    requires Located(js, n) && n.kind == Array
    ensures n.start < n.end <= |js|
    ensures Yields(js, Token(Array, n.start, n.end, |n.kids|, -1), 0, n.kids)
  {
    hide ParseItem, ParseItems, Scan, ScanElement, SkipSpace, Size, Located, Yields;
    Inside(js, n);
    var t := js[..n.end];
    SkipTwice(t, n.start + 1);
    var k := SkipSpace(t, n.start + 1);
    if n.kids != [] {
      var d: nat, room: nat :| ParseItems(t, k, d, false, room) == GoodAll(n.kids, |t|);
      var arr := Token(Array, n.start, n.end, |n.kids|, -1);
      ElementsYield(js, arr, k, d, room);
      FirstYields(js, arr, k, n.kids);
    } else {
      NothingYields(js, Token(Array, n.start, n.end, 0, -1), 0, k);
    }
  }

  /** From cursor 0 the first element is the one at the first byte that is no space. */
  lemma FirstYields(js: string, arr: Token, k: nat, elements: seq<Node>)
    requires arr.kind == Array && 0 <= arr.start < arr.end <= |js| && elements != []
    requires var t := js[..arr.end]; SkipSpace(t, arr.start + 1) == k < |t| && t[k] != ']'
    requires var next := ScanElement(js[..arr.end], k);
             && next.Element? && next.token == Shallow(elements[0]) && next.cursor <= arr.end
             && Yields(js, arr, next.cursor, elements[1..])
    ensures Yields(js, arr, 0, elements)
  {
    hide ScanNext, ScanElement, Shallow;
    FirstNext(js, arr, k);
  }

  lemma FirstNext(js: string, arr: Token, k: nat)
    requires arr.kind == Array && 0 <= arr.start < arr.end <= |js|
    requires var t := js[..arr.end]; SkipSpace(t, arr.start + 1) == k < |t| && t[k] != ']'
    ensures ScanNext(js, arr, 0) == ScanElement(js[..arr.end], k)
  {
    hide SkipSpace, ScanElement;
  }

  /** When the first byte that is no space closes the array, there is nothing left to step through. */
  lemma NothingYields(js: string, arr: Token, cursor: nat, k: nat)
    requires arr.kind == Array && 0 <= arr.start < arr.end <= |js| && cursor <= arr.end && k + 1 == arr.end
    requires SkipSpace(js[..arr.end], if cursor == 0 then arr.start + 1 else cursor) == k && js[..arr.end][k] == ']'
    ensures Yields(js, arr, cursor, [])
  {
    hide SkipSpace, ScanElement;
    SkipTwice(js[..arr.end], if cursor == 0 then arr.start + 1 else cursor);
  }

  // ---------------------------------------------------------------------------- for every token index

  /** The node behind a token index. */
  lemma {:induction false} NodeOf(t: string, ts: seq<Token>, at: int, n: Node, parent: int, base: nat, k: int)
    returns (m: Node, p: int, b: nat)
    requires TreeAt(ts, at, n, parent, base) && Placed(t, n) && at <= k < at + Size(n)
    ensures TreeAt(ts, k, m, p, b) && Placed(t, m)
    decreases n, 1
  {
    if k == at {
      m, p, b := n, parent, base;
    } else {
      TreeSplits(ts, at, n, parent, base);
      m, p, b := NodeAmong(t, ts, at + 1, n.kids, base, base + 1, k);
    }
  }

  lemma {:induction false} NodeAmong(t: string, ts: seq<Token>, at: int, ns: seq<Node>, parent: int, base: nat, k: int)
    returns (m: Node, p: int, b: nat)
    requires ForestAt(ts, at, ns, parent, base) && at <= k < at + Sizes(ns)
    requires forall i :: 0 <= i < |ns| ==> Placed(t, ns[i])
    ensures TreeAt(ts, k, m, p, b) && Placed(t, m)
    decreases ns, 0
  {
    ForestSplits(ts, at, ns, parent, base);
    if k < at + Size(ns[0]) {
      m, p, b := NodeOf(t, ts, at, ns[0], parent, base, k);
    } else {
      m, p, b := NodeAmong(t, ts, at + Size(ns[0]), ns[1..], parent, base + Size(ns[0]), k);
    }
  }

  /** The scanner's lookup and the token array's, on the object at a token index. */
  ghost predicate SameLookup(js: string, ts: seq<Token>, k: nat, name: string)
    requires k < |ts|
  {
    0 <= ts[k].start < ts[k].end <= |js| && ts[k].kind == Object &&
    var v := ObjectGet(js, ts, k, name);
    match ScanKey(js, ts[k], name)
    case Malformed => false
    case Missing => v == ERR_MISSING
    case Value(token) => 0 <= v < |ts| && token == Reported(ts[v])
  }

  /** Every object of an accepted text, every name: scanning for it agrees with looking it up in the tokens. */
  lemma LookupsAgree(js: string, room: nat, k: nat, name: string)
    requires ParseDocument(js, room).Accepted?
    requires var ts := Flatten(ParseDocument(js, room).root, -1, 0); k < |ts| && ts[k].kind == Object
    ensures SameLookup(js, Flatten(ParseDocument(js, room).root, -1, 0), k, name)
  {
    hide ParseValue, ScanKey, Located, Flatten;
    var root := ParseDocument(js, room).root;
    var ts := Flatten(root, -1, 0);
    assert Placed(js, root) by { ValuePlaces(js, 0, 0, room); }
    assert ts[0..Size(root)] == ts;
    var n, p, b := NodeOf(js, ts, 0, root, -1, 0, k);
    TreeSplits(ts, k, n, p, b);
    ScanKeyFinds(js, n, name);
    ParentIgnored(js, ts[k], name);
    ObjectGetFinds(js, ts, k, n, name, p, b);
    var i := FirstNamed(js, n.kids, name);
    if i < |n.kids| {
      MemberToken(ts, k + 1, n.kids, i, b, b + 1);
    }
  }

  lemma ParentIgnored(js: string, obj: Token, name: string)
    requires obj.kind == Object && 0 <= obj.start < obj.end <= |js|
    ensures ScanKey(js, obj, name) == ScanKey(js, obj.(parent := -1), name)
  {
  }

  /** The token of member i's value, which is no key and so keeps its child count. */
  lemma {:induction false} MemberToken(ts: seq<Token>, at: int, keys: seq<Node>, i: nat, parent: int, base: nat)
    requires ForestAt(ts, at, keys, parent, base) && AreKeys(keys) && PlainValues(keys) && i < |keys|
    ensures var v := at + Sizes(keys[..i]) + 1;
            0 <= v < |ts| && Reported(ts[v]) == Shallow(keys[i].kids[0])
    decreases i
  {
    hide ForestAt, TreeAt;
    ForestSplits(ts, at, keys, parent, base);
    if i == 0 {
      TreeSplits(ts, at, keys[0], parent, base);
      ForestSplits(ts, at + 1, keys[0].kids, base, base + 1);
      TreeSplits(ts, at + 1, keys[0].kids[0], base, base + 1);
    } else {
      MemberToken(ts, at + Size(keys[0]), keys[1..], i - 1, parent, base + Size(keys[0]));
      assert keys[..i][1..] == keys[1..][..i - 1];
    }
  }

  /** Every array of an accepted text: stepping through it yields the children its token counts. */
  lemma WalksAgree(js: string, room: nat, k: nat) returns (n: Node, p: int, b: nat)
    requires ParseDocument(js, room).Accepted?
    requires var ts := Flatten(ParseDocument(js, room).root, -1, 0); k < |ts| && ts[k].kind == Array
    ensures var ts := Flatten(ParseDocument(js, room).root, -1, 0);
            && TreeAt(ts, k, n, p, b) && ts[k].size == |n.kids| && 0 <= ts[k].start < ts[k].end <= |js|
            && Yields(js, ts[k].(parent := -1), 0, n.kids)
  {
    hide ParseValue, Located, Flatten, Yields;
    var root := ParseDocument(js, room).root;
    var ts := Flatten(root, -1, 0);
    assert Placed(js, root) by { ValuePlaces(js, 0, 0, room); }
    assert ts[0..Size(root)] == ts;
    n, p, b := NodeOf(js, ts, 0, root, -1, 0, k);
    TreeSplits(ts, k, n, p, b);
    ScanNextYields(js, n);
  }
}
