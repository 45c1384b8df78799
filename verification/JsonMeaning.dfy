/** What an accepted text says: the texts its strings stand for, the members of its objects. */
module JsonMeaning {
  import opened Status
  import opened JsonText
  import opened JsonTree
  import opened JsonTokens
  import opened JsonAgree
  import opened JsonEscape
  import Walks = JsonWalks

  ghost predicate IsString(js: string, n: Node) {
    n.kind == String && n.start <= n.end < |js| && StringEnd(js, n.start) == CloseAt(n.end)
  }

  /** The node is a string that stands for this text, however long. */
  ghost predicate Says(js: string, n: Node, s: string) {
    IsString(js, n) && Unescape(js, n.start, n.end, n.end - n.start + 1) == Text(s)
  }

  ghost predicate SaysNull(js: string, n: Node) {
    n.kind == Primitive && n.start <= n.end <= |js| && js[n.start..n.end] == "null"
  }

  datatype Member = NoChild | Child(value: Node)

  /** The value of the first member with this name. */
  ghost function MemberOf(js: string, row: Node, name: string): Member {
    var i := FirstNamed(js, row.kids, name);
    if i < |row.kids| && |row.kids[i].kids| == 1 then Child(row.kids[i].kids[0]) else NoChild
  }

  lemma LocatedString(js: string, n: Node)
    requires Located(js, n) && n.kind == String
    ensures IsString(js, n)
  {
    hide ParseItems, PrimitiveEnd, CheckPrimitive, StringEnd, SkipSpace;
    var d, room :| ParsesAs(js, n, d, room);
    ValueStarts(js, RawStart(n), d, room);
  }

  lemma SaysWhich(js: string, n: Node, s: string)
    requires Says(js, n, s)
    ensures forall r :: Says(js, n, r) <==> r == s
    ensures !SaysNull(js, n)
  {
    hide Unescape, StringEnd;
  }

  lemma SaysNothing(js: string, n: Node)
    requires n.kind != String
    ensures forall r :: !Says(js, n, r)
  {
    hide Unescape, StringEnd;
  }

  /** A string copied into a buffer gives the text it stands for exactly when text and terminator fit. */
  lemma CopyIs(js: string, n: Node, room: nat)
    requires IsString(js, n) && room > 0
    ensures forall s :: Unescape(js, n.start, n.end, room) == Text(s) <==> Says(js, n, s) && |s| < room
  {
    hide Unescape, StringEnd;
    UnescapeFitsIff(js, n.start, n.end, room);
  }

  /** Looking a name up among the tokens of an accepted object gives the tree's member. */
  lemma MemberGets(js: string, room: nat, root: Node, name: string)
    requires ParseDocument(js, room) == Accepted(root) && root.kind == Object
    ensures var ts := Flatten(root, -1, 0); var got := ObjectGet(js, ts, 0, name);
            match MemberOf(js, root, name)
            case NoChild => got == ERR_MISSING
            case Child(v) =>
              && 0 <= got < |ts| && Located(js, v)
              && ts[got].kind == v.kind && ts[got].start == v.start && ts[got].end == v.end
  {
    hide ParseValue, Located, Flatten, ObjectGet, Walks.Verdict, Size, Sizes, ForestAt, FirstNamed;
    ValuePlaces(js, 0, 0, room);
    var ts := Flatten(root, -1, 0);
    assert ts[0..Size(root)] == ts;
    Walks.ScanKeyFinds(js, root, name);
    ObjectGetFinds(js, ts, 0, root, name, -1, 0);
    var i := FirstNamed(js, root.kids, name);
    if i < |root.kids| {
      assert Placed(js, root.kids[i]) && Placed(js, root.kids[i].kids[0]);
      TreeSplits(ts, 0, root, -1, 0);
      Walks.MemberToken(ts, 1, root.kids, i, 0, 1);
    }
  }
}
