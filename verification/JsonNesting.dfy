/** Which token is whose parent: the last one before it whose subtree it lies in. */
module JsonNesting {
  import opened JsonTree
  import opened JsonTokens

  /** The parent's subtree holds token k, and no subtree that begins between the two does. */
  ghost predicate Innermost(ts: seq<Token>, k: int) {
    0 <= k < |ts| && 0 <= ts[k].parent < k < Skip(ts, ts[k].parent) && forall q :: ts[k].parent < q < k ==> Skip(ts, q) <= k
  }

  /** From `at` to `end` every token lies in its parent, from `first` on, and no subtree goes past `end`. */
  ghost predicate Nested(ts: seq<Token>, first: int, at: int, end: int) {
    && forall k :: at <= k < end ==> Innermost(ts, k) && first <= ts[k].parent && Skip(ts, k) <= end
  }

  lemma {:induction false} TreeNests(ts: seq<Token>, at: nat, n: Node, parent: int)
    requires TreeAt(ts, at, n, parent, at)
    ensures ts[at].parent == parent && Skip(ts, at) == at + Size(n) && Nested(ts, at, at + 1, at + Size(n))
    decreases n, 1
  {
    hide Skip, Innermost;
    TreeSplits(ts, at, n, parent, at);
    SkipsTree(ts, at, n, parent, at);
    ForestNests(ts, at + 1, n.kids, at);
  }

  lemma {:induction false} ForestNests(ts: seq<Token>, at: nat, ns: seq<Node>, parent: int)
    requires 0 <= parent < at && ForestAt(ts, at, ns, parent, at) && at + Sizes(ns) <= Skip(ts, parent)
    requires forall q :: parent < q < at ==> Skip(ts, q) <= at
    ensures Nested(ts, parent, at, at + Sizes(ns))
    decreases ns, 0
  {
    hide Skip, ForestAt, TreeAt, Size, Innermost, Nested;
    if ns != [] {
      var next := at + Size(ns[0]);
      ForestSplits(ts, at, ns, parent, at);
      SizesSplit(ns);
      SubtreeStays(ts, at, ns[0], parent);
      TreeNests(ts, at, ns[0], parent);
      ForestStays(ts, next, ns[1..], parent);
      HeadNests(ts, at, next, at + Sizes(ns), parent);
      ForestNests(ts, next, ns[1..], parent);
      NestsJoin(ts, parent, at, next, at + Sizes(ns));
    } else {
      NoneNested(ts, parent, at, at + Sizes(ns));
    }
  }

  lemma SizesSplit(ns: seq<Node>)
    requires ns != []
    ensures Sizes(ns) == Size(ns[0]) + Sizes(ns[1..])
  {
  }

  lemma NoneNested(ts: seq<Token>, first: int, at: int, end: int)
    requires end <= at
    ensures Nested(ts, first, at, end)
  {
  }

  /** A subtree right behind others, with all of it inside the parent's. */
  lemma HeadNests(ts: seq<Token>, at: nat, next: nat, end: nat, parent: int)
    requires 0 <= parent < at < next <= end <= Skip(ts, parent) && next <= |ts|
    requires ts[at].parent == parent && Skip(ts, at) == next && Nested(ts, at, at + 1, next)
    requires forall q :: parent < q < at ==> Skip(ts, q) <= at
    ensures Nested(ts, parent, at, next) && forall q :: parent < q < next ==> Skip(ts, q) <= next
  {
    hide Skip;
    assert Innermost(ts, at);
  }

  lemma NestsJoin(ts: seq<Token>, first: int, at: int, next: int, end: int)
    requires next <= end && Nested(ts, first, at, next) && Nested(ts, first, next, end)
    ensures Nested(ts, first, at, end)
  {
    hide Skip, Innermost;
  }

  lemma SubtreeStays(ts: seq<Token>, at: nat, n: Node, parent: int)
    requires TreeAt(ts, at, n, parent, at)
    ensures at < at + Size(n) <= |ts|
  {
  }

  lemma ForestStays(ts: seq<Token>, at: nat, ns: seq<Node>, parent: int)
    requires ForestAt(ts, at, ns, parent, at)
    ensures at + Sizes(ns) <= |ts| && Sizes(ns) >= 0
  {
  }

  /** Of a document's tokens the first has no parent, and every other the innermost one whose subtree it lies in. */
  lemma ParentsEnclose(root: Node)
    ensures var ts := Flatten(root, -1, 0);
            |ts| > 0 && ts[0].parent == -1 && forall k :: 0 < k < |ts| ==> Innermost(ts, k)
  {
    hide Skip, Innermost;
    var ts := Flatten(root, -1, 0);
    assert ts[0..Size(root)] == ts;
    TreeNests(ts, 0, root, -1);
    SubtreeStays(ts, 0, root, -1);
  }
}
