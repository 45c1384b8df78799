/** What the tokenizer reads: the tree of values in a text, with the spans its tokens record. */
module JsonTree {
  import opened Status
  import opened JsonText

  datatype Kind = Object | Array | String | Primitive

  /**
   * A value and the values below it. An object's children are its keys, each a string whose one child is the
   * member's value. Spans are as in the tokens: strings without their quotes, everything else whole.
   */
  datatype Node = Node(kind: Kind, start: nat, end: nat, kids: seq<Node>)

  const MAX_DEPTH: nat := 24

  function Size(n: Node): (s: nat)
    ensures s >= 1
  {
    1 + Sizes(n.kids)
  }

  function Sizes(ns: seq<Node>): nat {
    if ns == [] then 0 else Size(ns[0]) + Sizes(ns[1..])
  }

  /** A value and the offset after it; or the error code. */
  datatype Parse = Fail(rc: int) | Good(node: Node, pos: nat)

  /** The children of a container and the offset after its closing bracket; or the error code. */
  datatype Parses = FailAll(rc: int) | GoodAll(nodes: seq<Node>, pos: nat)

  /** The value at i, inside `depth` containers, with room for `room` more tokens. */
  function ParseValue(t: string, i: nat, depth: nat, room: nat): (r: Parse)
    requires i <= |t|
    ensures r.Good? ==> i < r.pos <= |t| && Size(r.node) <= room
    ensures r.Fail? ==> r.rc < 0
    decreases |t| - i, 3
  {
    if depth > MAX_DEPTH then Fail(ERR_JSON)
    else
      var j := SkipSpace(t, i);
      if j >= |t| then Fail(ERR_JSON)
      else if t[j] == '{' || t[j] == '[' then ParseContainer(t, j, depth, room)
      else if t[j] == '"' then ParseString(t, j, room)
      else ParsePrimitive(t, j, room)
  }

  function ParseString(t: string, i: nat, room: nat): (r: Parse)
    requires i < |t|
    ensures r.Good? ==> i < r.pos <= |t| && Size(r.node) <= room
    ensures r.Fail? ==> r.rc < 0
  {
    if room == 0 then Fail(ERR_NOMEM)
    else
      match StringEnd(t, i + 1)
      case NoClose => Fail(ERR_JSON)
      case CloseAt(close) => Good(Node(String, i + 1, close, []), close + 1)
  }

  function ParsePrimitive(t: string, i: nat, room: nat): (r: Parse)
    requires i < |t|
    ensures r.Good? ==> i < r.pos <= |t| && Size(r.node) <= room
    ensures r.Fail? ==> r.rc < 0
  {
    if room == 0 then Fail(ERR_NOMEM)
    else
      var j := PrimitiveEnd(t, i);
      if CheckPrimitive(t[i..j]) then Good(Node(Primitive, i, j, []), j) else Fail(ERR_JSON)
  }

  function Closing(braced: bool): char {
    if braced then '}' else ']'
  }

  function ParseContainer(t: string, i: nat, depth: nat, room: nat): (r: Parse)
    requires i < |t|
    ensures r.Good? ==> i < r.pos <= |t| && Size(r.node) <= room
    ensures r.Fail? ==> r.rc < 0
    decreases |t| - i, 2
  {
    if room == 0 then Fail(ERR_NOMEM)
    else
      var braced := t[i] == '{';
      var kind := if braced then Object else Array;
      var j := SkipSpace(t, i + 1);
      if j < |t| && t[j] == Closing(braced) then Good(Node(kind, i, j + 1, []), j + 1)
      else
        match ParseItems(t, j, depth, braced, room - 1)
        case FailAll(rc) => Fail(rc)
        case GoodAll(kids, e) => Good(Node(kind, i, e, kids), e)
  }

  /** One element of an array, or one key with its value. */
  function ParseItem(t: string, i: nat, depth: nat, braced: bool, room: nat): (r: Parse)
    requires i <= |t|
    ensures r.Good? ==> i < r.pos <= |t| && Size(r.node) <= room
    ensures r.Fail? ==> r.rc < 0
    decreases |t| - i, 4
  {
    if !braced then ParseValue(t, i, depth + 1, room)
    else
      var j := SkipSpace(t, i);
      if j >= |t| || t[j] != '"' then Fail(ERR_JSON)
      else
        match ParseString(t, j, room)
        case Fail(rc) => Fail(rc)
        case Good(key, e) =>
          var k := SkipSpace(t, e);
          if k >= |t| || t[k] != ':' then Fail(ERR_JSON)
          else
            match ParseValue(t, k + 1, depth + 1, room - 1)
            case Fail(rc) => Fail(rc)
            case Good(value, e') =>
              assert Sizes([value]) == Size(value) by { assert [value][1..] == []; }
              Good(key.(kids := [value]), e')
  }

  /** Items separated by single commas, up to and including the closing bracket. */
  function ParseItems(t: string, i: nat, depth: nat, braced: bool, room: nat): (r: Parses)
    requires i <= |t|
    ensures r.GoodAll? ==> i < r.pos <= |t| && Sizes(r.nodes) <= room
    ensures r.FailAll? ==> r.rc < 0
    decreases |t| - i, 5
  {
    if SkipSpace(t, i) >= |t| then FailAll(ERR_JSON)
    else
      match ParseItem(t, i, depth, braced, room)
      case Fail(rc) => FailAll(rc)
      case Good(item, e) =>
        var k := SkipSpace(t, e);
        if k >= |t| then FailAll(ERR_JSON)
        else if t[k] == ',' then
          (match ParseItems(t, k + 1, depth, braced, room - Size(item))
           case FailAll(rc) => FailAll(rc)
           case GoodAll(items, e') => GoodAll([item] + items, e'))
        else if t[k] == Closing(braced) then GoodAll([item], k + 1)
        else FailAll(ERR_JSON)
  }

  datatype Document = Refused(rc: int) | Accepted(root: Node)

  /** The whole text: one value, white space around it, at most `room` tokens. */
  function ParseDocument(t: string, room: nat): (r: Document)
    ensures r.Accepted? ==> Size(r.root) <= room
    ensures r.Refused? ==> r.rc < 0
  {
    match ParseValue(t, 0, 0, room)
    case Fail(rc) => Refused(rc)
    case Good(root, e) => if SkipSpace(t, e) == |t| then Accepted(root) else Refused(ERR_JSON)
  }

  // ---------------------------------------------------------------------------------------- tokens

  /** One entry of the token array. */
  datatype Token = Token(kind: Kind, start: int, end: int, size: int, parent: int)

  /** The tokens of a subtree in pre-order; the first of them gets index `base`. */
  function Flatten(n: Node, parent: int, base: nat): (ts: seq<Token>)
    ensures |ts| == Size(n)
    decreases n, 1
  {
    [Token(n.kind, n.start, n.end, |n.kids|, parent)] + FlattenAll(n.kids, base, base + 1)
  }

  function FlattenAll(ns: seq<Node>, parent: int, base: nat): (ts: seq<Token>)
    ensures |ts| == Sizes(ns)
    decreases ns, 0
  {
    if ns == [] then [] else Flatten(ns[0], parent, base) + FlattenAll(ns[1..], parent, base + Size(ns[0]))
  }

  lemma {:induction false} FlattenSnoc(ns: seq<Node>, n: Node, parent: int, base: nat)
    ensures Sizes(ns + [n]) == Sizes(ns) + Size(n)
    ensures FlattenAll(ns + [n], parent, base) == FlattenAll(ns, parent, base) + Flatten(n, parent, base + Sizes(ns))
  {
    if ns == [] {
      assert [] + [n] == [n] && [n][1..] == [];
    } else {
      assert (ns + [n])[1..] == ns[1..] + [n];
      FlattenSnoc(ns[1..], n, parent, base + Size(ns[0]));
    }
  }
}
