/** Finding one's way in a token array: the next sibling, and an object's member by name. */
module JsonTokens {
  import opened Status
  import opened JsonTree

  // -------------------------------------------------------------------------------- specification

  /** Index one past the subtree at idx; the end of the array for an index outside it. */
  function Skip(ts: seq<Token>, idx: int): (end: int)
    ensures 0 <= idx < |ts| ==> idx < end <= |ts|
    ensures !(0 <= idx < |ts|) ==> end == |ts|
    decreases if 0 <= idx < |ts| then |ts| - idx else 0, 1, 0
  {
    if idx < 0 || idx >= |ts| then |ts| else SkipKids(ts, idx + 1, ts[idx].size)
  }

  function SkipKids(ts: seq<Token>, end: int, n: int): (r: int)
    requires 0 <= end <= |ts|
    ensures end <= r <= |ts|
    decreases |ts| - end, 2, if n > 0 then n else 0
  {
    if n <= 0 || end >= |ts| then end else SkipKids(ts, Skip(ts, end), n - 1)
  }

  /** The raw bytes of a string token are exactly the name. */
  predicate Named(js: string, tok: Token, name: string) {
    tok.kind == String && 0 <= tok.start <= tok.end <= |js| && js[tok.start..tok.end] == name
  }

  /** The value index of the first of the n members from `child` on that has this name. */
  function Lookup(js: string, ts: seq<Token>, child: int, n: int, name: string): int
    requires 0 <= child
    decreases if n > 0 then n else 0
  {
    if n <= 0 || child >= |ts| then ERR_MISSING
    else if Named(js, ts[child], name) && child + 1 < |ts| then child + 1
    else Lookup(js, ts, Skip(ts, child), n - 1, name)
  }

  function ObjectGet(js: string, ts: seq<Token>, obj: int, name: string): int {
    if obj < 0 || obj >= |ts| || ts[obj].kind != Object then ERR_MISSING
    else Lookup(js, ts, obj + 1, ts[obj].size, name)
  }

  // ------------------------------------------------------------------------------------- the loops

  method SkipAt(ts: array<Token>, count: int, idx: int) returns (end: int)
    requires 0 <= count <= ts.Length
    ensures end == Skip(ts[..count], idx)
    decreases if 0 <= idx < count then count - idx else 0
  {
    if idx < 0 || idx >= count {
      return count;
    }
    end := idx + 1;
    var i := 0;
    while i < ts[idx].size && end < count
      invariant idx < end <= count
      invariant SkipKids(ts[..count], end, ts[idx].size - i) == Skip(ts[..count], idx)
      decreases ts[idx].size - i
    {
      end := SkipAt(ts, count, end);
      i := i + 1;
    }
  }

  method ObjectGetAt(js: string, ts: array<Token>, count: int, obj: int, name: string) returns (value: int)
    requires 0 <= count <= ts.Length
    ensures value == ObjectGet(js, ts[..count], obj, name)
  {
    if obj < 0 || obj >= count || ts[obj].kind != Object {
      return ERR_MISSING;
    }
    var child := obj + 1;
    var i := 0;
    while i < ts[obj].size && child < count
      invariant 0 <= child <= count
      invariant Lookup(js, ts[..count], child, ts[obj].size - i, name) == ObjectGet(js, ts[..count], obj, name)
      decreases ts[obj].size - i
    {
      if Named(js, ts[child], name) && child + 1 < count {
        return child + 1;
      }
      child := SkipAt(ts, count, child);
      i := i + 1;
    }
    return ERR_MISSING;
  }

  // ---------------------------------------------------------------------- against the tree of values

  /** The tokens of a forest, somewhere in an array. */
  ghost predicate ForestAt(ts: seq<Token>, at: int, ns: seq<Node>, parent: int, base: nat) {
    0 <= at && at + Sizes(ns) <= |ts| && ts[at..at + Sizes(ns)] == FlattenAll(ns, parent, base)
  }

  ghost predicate TreeAt(ts: seq<Token>, at: int, n: Node, parent: int, base: nat) {
    0 <= at && at + Size(n) <= |ts| && ts[at..at + Size(n)] == Flatten(n, parent, base)
  }

  lemma TreeSplits(ts: seq<Token>, at: int, n: Node, parent: int, base: nat)
    requires TreeAt(ts, at, n, parent, base)
    ensures ts[at] == Token(n.kind, n.start, n.end, |n.kids|, parent)
    ensures ForestAt(ts, at + 1, n.kids, base, base + 1)
  {
    var part := ts[at..at + Size(n)];
    assert part[0] == ts[at];
    assert part[1..] == ts[at + 1..at + 1 + Sizes(n.kids)];
    assert Flatten(n, parent, base)[1..] == FlattenAll(n.kids, base, base + 1);
  }

  lemma ForestSplits(ts: seq<Token>, at: int, ns: seq<Node>, parent: int, base: nat)
    requires ForestAt(ts, at, ns, parent, base) && ns != []
    ensures TreeAt(ts, at, ns[0], parent, base)
    ensures ForestAt(ts, at + Size(ns[0]), ns[1..], parent, base + Size(ns[0]))
  {
    var part, s := ts[at..at + Sizes(ns)], Size(ns[0]);
    assert part[..s] == ts[at..at + s];
    assert part[s..] == ts[at + s..at + s + Sizes(ns[1..])];
    var head := Flatten(ns[0], parent, base);
    var tail := FlattenAll(ns[1..], parent, base + s);
    assert (head + tail)[..s] == head && (head + tail)[s..] == tail;
  }

  /** Skipping a subtree lands one past it. */
  lemma {:induction false} SkipsTree(ts: seq<Token>, at: int, n: Node, parent: int, base: nat)
    requires TreeAt(ts, at, n, parent, base)
    ensures Skip(ts, at) == at + Size(n)
    decreases n, 1
  {
    TreeSplits(ts, at, n, parent, base);
    SkipsForest(ts, at + 1, n.kids, base, base + 1);
  }

  lemma {:induction false} SkipsForest(ts: seq<Token>, at: int, ns: seq<Node>, parent: int, base: nat)
    requires ForestAt(ts, at, ns, parent, base)
    ensures SkipKids(ts, at, |ns|) == at + Sizes(ns)
    decreases ns, 0
  {
    if ns != [] {
      ForestSplits(ts, at, ns, parent, base);
      SkipsTree(ts, at, ns[0], parent, base);
      SkipsForest(ts, at + Size(ns[0]), ns[1..], parent, base + Size(ns[0]));
    }
  }

  /** Of a document's tokens, the root's subtree is all of them. */
  lemma SkipsDocument(root: Node)
    ensures Skip(Flatten(root, -1, 0), 0) == Size(root)
  {
    var ts := Flatten(root, -1, 0);
    assert ts[0..Size(root)] == ts;
    SkipsTree(ts, 0, root, -1, 0);
  }

  /** Every token but the root comes after its parent, and lies inside the parent's subtree. */
  ghost predicate Parented(ts: seq<Token>, base: int) {
    forall k :: 0 <= k < |ts| ==> -1 <= ts[k].parent < base + k
  }

  lemma {:induction false} ParentsPrecede(n: Node, parent: int, base: nat)
    requires -1 <= parent < base
    ensures Parented(Flatten(n, parent, base), base)
    decreases n, 1
  {
    AllParentsPrecede(n.kids, base, base + 1);
    var rest := FlattenAll(n.kids, base, base + 1);
    forall k | 0 < k < Size(n) ensures -1 <= Flatten(n, parent, base)[k].parent < base + k {
      assert Flatten(n, parent, base)[k] == rest[k - 1];
    }
  }

  lemma {:induction false} AllParentsPrecede(ns: seq<Node>, parent: int, base: nat)
    requires -1 <= parent < base
    ensures Parented(FlattenAll(ns, parent, base), base)
    decreases ns, 0
  {
    if ns != [] {
      ParentsPrecede(ns[0], parent, base);
      AllParentsPrecede(ns[1..], parent, base + Size(ns[0]));
    }
  }

  // ------------------------------------------------------------------------------ members of an object

  /** The position among an object's keys of the first one with this name. */
  function FirstNamed(js: string, keys: seq<Node>, name: string): (i: nat)
    ensures i <= |keys|
  {
    if keys == [] then 0
    else if HasName(js, keys[0], name) then 0
    else 1 + FirstNamed(js, keys[1..], name)
  }

  predicate HasName(js: string, key: Node, name: string) {
    key.kind == String && key.start <= key.end <= |js| && js[key.start..key.end] == name
  }

  lemma {:induction false} FirstNamedIsFirst(js: string, keys: seq<Node>, name: string)
    ensures var i := FirstNamed(js, keys, name);
            && (i < |keys| ==> HasName(js, keys[i], name))
            && forall j :: 0 <= j < i ==> !HasName(js, keys[j], name)
  {
    if keys != [] && !HasName(js, keys[0], name) {
      FirstNamedIsFirst(js, keys[1..], name);
      var i := FirstNamed(js, keys[1..], name);
      forall j | 0 <= j < 1 + i ensures !HasName(js, keys[j], name) {
        if j > 0 { assert keys[j] == keys[1..][j - 1]; }
      }
    }
  }

  ghost predicate AreKeys(keys: seq<Node>) {
    forall i :: 0 <= i < |keys| ==> keys[i].kind == String && |keys[i].kids| == 1
  }

  /** The token of a member's value: just behind its key, which follows the members before it. */
  lemma {:induction false} LookupFinds(js: string, ts: seq<Token>, at: int, keys: seq<Node>, name: string, parent: int, base: nat)
    requires ForestAt(ts, at, keys, parent, base) && AreKeys(keys)
    ensures var i := FirstNamed(js, keys, name);
            Lookup(js, ts, at, |keys|, name) == if i < |keys| then at + Sizes(keys[..i]) + 1 else ERR_MISSING
    decreases |keys|
  {
    hide ForestAt, Size;
    if keys != [] {
      ForestSplits(ts, at, keys, parent, base);
      TreeSplits(ts, at, keys[0], parent, base);
      SkipsTree(ts, at, keys[0], parent, base);
      assert Size(keys[0]) >= 2 by { assert keys[0].kids[0..] == keys[0].kids; }
      LookupFinds(js, ts, at + Size(keys[0]), keys[1..], name, parent, base + Size(keys[0]));
      var i := FirstNamed(js, keys[1..], name);
      assert keys[..1 + i][1..] == keys[1..][..i];
    }
  }

  /** Looking a name up in an object of the document gives the value of its first member with that name. */
  lemma ObjectGetFinds(js: string, ts: seq<Token>, at: int, n: Node, name: string, parent: int, base: nat)
    requires TreeAt(ts, at, n, parent, base) && n.kind == Object && AreKeys(n.kids)
    ensures var i := FirstNamed(js, n.kids, name);
            ObjectGet(js, ts, at, name) == if i < |n.kids| then at + 1 + Sizes(n.kids[..i]) + 1 else ERR_MISSING
  {
    TreeSplits(ts, at, n, parent, base);
    LookupFinds(js, ts, at + 1, n.kids, name, base, base + 1);
  }
}
