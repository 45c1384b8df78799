/** The tokenizer: a recursive descent that fills a fixed array of tokens. */
module JsonParser {
  import opened Status
  import opened JsonText
  import opened JsonTree

  class Parser {
    const js: string
    const max: nat
    const toks: array<Token>
    var pos: nat
    var count: nat

    ghost predicate Valid()
      reads this
    {
      pos <= |js| && count <= max <= toks.Length
    }

    /** The tokens produced so far. */
    ghost function Produced(): seq<Token>
      requires Valid()
      reads this, toks
    {
      toks[..count]
    }

    constructor (js: string, toks: array<Token>, max: nat)
      requires max <= toks.Length
      ensures this.js == js && this.toks == toks && this.max == max && pos == 0 && count == 0
    {
      this.js, this.toks, this.max, pos, count := js, toks, max, 0, 0;
    }

    method SkipWs()
      requires Valid()
      modifies this`pos
      ensures Valid() && pos == SkipSpace(js, old(pos))
    {
      while pos < |js| && IsSpace(js[pos])
        invariant Valid() && SkipSpace(js, pos) == SkipSpace(js, old(pos))
      {
        pos := pos + 1;
      }
    }

    method AllocTok(kind: Kind, parent: int) returns (idx: int)
      requires Valid()
      modifies this`count, toks
      ensures Valid()
      ensures old(count) >= max ==> idx == ERR_NOMEM
      ensures old(count) < max ==>
                (idx == old(count) && count == idx + 1 && Produced() == old(Produced()) + [Token(kind, pos, -1, 0, parent)])
    {
      if count >= max {
        return ERR_NOMEM;
      }
      toks[count] := Token(kind, pos, -1, 0, parent);
      count := count + 1;
      idx := count - 1;
    }

    /** The outcome the parse `p` prescribes: its error code, or its tokens appended and the offset behind it. */
    ghost predicate Outcome(p: Parse, parent: int, before: seq<Token>, idx: int)
      requires Valid()
      reads this, toks
    {
      match p
      case Fail(rc) => idx == rc
      case Good(node, e) => idx == |before| && pos == e && Produced() == before + Flatten(node, parent, |before|)
    }

    /** Sets the end of a token already produced. */
    method SetEnd(idx: nat, end: nat)
      requires Valid() && idx < count
      modifies toks
      ensures Produced() == old(Produced())[idx := old(Produced())[idx].(end := end)]
    {
      toks[idx] := toks[idx].(end := end);
    }

    method SetSize(idx: nat, size: int)
      requires Valid() && idx < count
      modifies toks
      ensures Produced() == old(Produced())[idx := old(Produced())[idx].(size := size)]
    {
      toks[idx] := toks[idx].(size := size);
    }

    /** The parser stands on the opening quote. */
    method ParseStringAt(parent: int) returns (idx: int)
      requires Valid() && pos < |js|
      modifies this, toks
      ensures Valid() && Outcome(ParseString(js, old(pos), max - old(count)), parent, old(Produced()), idx)
    {
      pos := pos + 1;
      idx := AllocTok(String, parent);
      if idx < 0 {
        return;
      }
      ghost var started := Produced();
      var close := StringEndAt(js, pos);
      if close.NoClose? {
        return ERR_JSON;
      }
      SetEnd(idx, close.pos);
      pos := close.pos + 1;
    }

    method ParsePrimitiveAt(parent: int) returns (idx: int)
      requires Valid() && pos < |js|
      modifies this, toks
      ensures Valid() && Outcome(ParsePrimitive(js, old(pos), max - old(count)), parent, old(Produced()), idx)
    {
      idx := AllocTok(Primitive, parent);
      if idx < 0 {
        return;
      }
      var start := pos;
      ghost var started := Produced();
      while pos < |js| && !EndsPrimitive(js[pos])
        invariant Valid() && start <= pos && PrimitiveEnd(js, pos) == PrimitiveEnd(js, start)
        invariant Produced() == started && count == old(count) + 1
      {
        pos := pos + 1;
      }
      if !CheckPrimitive(js[start..pos]) {
        return ERR_JSON;
      }
      SetEnd(idx, pos);
    }

    method ParseValueAt(parent: int, depth: nat) returns (idx: int)
      requires Valid()
      modifies this, toks
      ensures Valid() && Outcome(ParseValue(js, old(pos), depth, max - old(count)), parent, old(Produced()), idx)
      decreases |js| - pos, 8
    {
      if depth > MAX_DEPTH {
        return ERR_JSON;
      }
      SkipWs();
      if pos >= |js| {
        return ERR_JSON;
      }
      var c := js[pos];
      if c == '{' || c == '[' {
        idx := ParseContainerAt(parent, depth, c == '{');
      } else if c == '"' {
        idx := ParseStringAt(parent);
      } else {
        idx := ParsePrimitiveAt(parent);
      }
    }

    /** One element, or one key, colon and value, whose parent is the container token `idx`. */
    method ParseItemAt(idx: nat, depth: nat, braced: bool) returns (rc: int)
      requires Valid()
      modifies this, toks
      ensures Valid() && Outcome(ParseItem(js, old(pos), depth, braced, max - old(count)), idx, old(Produced()), rc)
      decreases |js| - pos, 9
    {
      hide ParseItem, ParseValue, FlattenAll, KeyRead;
      if !braced {
        NoKey(js, pos, depth, max - count);
        rc := ParseValueAt(idx, depth + 1);
        return;
      }
      ghost var before, read := Produced(), KeyRead(js, pos, max - count);
      KeyedItemRead(js, pos, depth, max - count);
      var key := ParseKeyAt(idx);
      if key < 0 {
        return key;
      }
      ghost var value := ParseValue(js, pos, depth + 1, max - count);
      rc := ParseMemberAt(key, depth, before, Produced()[key]);
      if rc >= 0 {
        KeyedFlatten(read.node.(kids := [value.node]), idx, before, value.node);
      }
    }

    /** White space, a key, white space and a colon. */
    method ParseKeyAt(parent: int) returns (idx: int)
      requires Valid()
      modifies this, toks
      ensures Valid()
      ensures match KeyRead(js, old(pos), max - old(count))
              case Fail(code) => idx == code < 0
              case Good(key, e) =>
                idx == |old(Produced())| && pos == e && count == old(count) + 1
                && Produced() == old(Produced()) + [Token(String, key.start, key.end, 0, parent)]
    {
      hide StringEnd, SkipSpace;
      SkipWs();
      if pos >= |js| || js[pos] != '"' {
        return ERR_JSON;
      }
      idx := ParseStringAt(parent);
      if idx < 0 {
        return;
      }
      SkipWs();
      if pos >= |js| || js[pos] != ':' {
        return ERR_JSON;
      }
      pos := pos + 1;
    }

    /** The value behind a key's colon, which becomes the key's one child. */
    method ParseMemberAt(key: nat, depth: nat, ghost before: seq<Token>, ghost t: Token) returns (rc: int)
      requires Valid() && key == |before| && Produced() == before + [t] && t.size == 0
      modifies this, toks
      ensures Valid()
      ensures match ParseValue(js, old(pos), depth + 1, max - old(count))
              case Fail(code) => rc == code
              case Good(value, e) =>
                rc == key && pos == e && Produced() == before + [t.(size := 1)] + Flatten(value, key, key + 1)
      decreases |js| - pos, 9
    {
      hide ParseValue, Flatten;
      var v := ParseValueAt(key, depth + 1);
      if v < 0 {
        return v;
      }
      SetSize(key, 1);
      rc := key;
    }

    /** Parses one item and counts it in its container, whose children so far are `kids`. */
    method AddItem(idx: nat, depth: nat, braced: bool, ghost before: seq<Token>, ghost t: Token, ghost kids: seq<Node>)
      returns (rc: int, ghost item: Node)
      requires Valid() && idx == |before| && SkipSpace(js, pos) < |js|
      requires Produced() == before + [t] + FlattenAll(kids, idx, idx + 1)
      modifies this, toks
      ensures Valid()
      ensures rc < 0 ==> ParseItems(js, old(pos), depth, braced, max - old(count)) == FailAll(rc)
      ensures rc >= 0 ==>
                && old(pos) < pos
                && ParseItems(js, old(pos), depth, braced, max - old(count))
                     == Prepend([item], AfterItem(js, pos, depth, braced, max - count))
                && Produced() == before + [t.(size := t.size + 1)] + FlattenAll(kids + [item], idx, idx + 1)
      decreases |js| - pos, 10
    {
      hide ParseItems, ParseItem, ParseValue, FlattenAll, Flatten, Size, Sizes, AfterItem, Prepend, SkipSpace;
      ghost var p := ParseItem(js, pos, depth, braced, max - count);
      ItemsUnfold(js, pos, depth, braced, max - count);
      item := Node(Array, 0, 0, []);
      rc := ParseItemAt(idx, depth, braced);
      if rc < 0 {
        return;
      }
      item := p.node;
      assert Produced()[idx] == t;
      SetSize(idx, toks[idx].size + 1);
      FlattenSnoc(kids, item, idx, idx + 1);
      UpdateBetween(before, t, FlattenAll(kids, idx, idx + 1), Flatten(item, idx, idx + 1 + Sizes(kids)),
                    t.(size := t.size + 1));
    }

    /** Consumes the closing bracket of container `idx` and sets its end. */
    method CloseContainer(idx: nat, ghost before: seq<Token>, ghost t: Token, ghost kids: seq<Node>)
      requires Valid() && pos < |js| && idx == |before|
      requires Produced() == before + [t] + FlattenAll(kids, idx, idx + 1)
      modifies this, toks
      ensures Valid() && pos == old(pos) + 1
      ensures Produced() == before + [t.(end := pos)] + FlattenAll(kids, idx, idx + 1)
    {
      pos := pos + 1;
      assert Produced()[idx] == t;
      SetEnd(idx, pos);
      UpdateBetween(before, t, FlattenAll(kids, idx, idx + 1), [], t.(end := pos));
    }

    /** The items of a container up to its closing bracket, and the container token's size and end. */
    method ParseItemsAt(idx: nat, depth: nat, braced: bool, ghost before: seq<Token>, ghost t0: Token) returns (rc: int)
      requires Valid() && idx == |before| && t0.size == 0 && Produced() == before + [t0]
      modifies this, toks
      ensures Valid()
      ensures match ParseItems(js, old(pos), depth, braced, max - old(count))
              case FailAll(code) => rc == code
              case GoodAll(kids, e) =>
                && rc == idx && pos == e
                && Produced() == before + [t0.(size := |kids|, end := e)] + FlattenAll(kids, idx, idx + 1)
      decreases |js| - pos, 11
    {
      hide ParseItems, FlattenAll, Prepend, IsSpace, SkipSpace, Sizes, Closing;
      ghost var whole := ParseItems(js, pos, depth, braced, max - count);
      ghost var rest := whole;
      ghost var kids: seq<Node> := [];
      PrependNone(whole);
      assert FlattenAll(kids, idx, idx + 1) == [] by { FlattenNone(idx, idx + 1); }
      while true
        invariant Valid() && old(pos) <= pos
        invariant Produced() == before + [t0.(size := |kids|)] + FlattenAll(kids, idx, idx + 1)
        invariant rest == ParseItems(js, pos, depth, braced, max - count)
        invariant whole == Prepend(kids, rest)
        decreases |js| - pos
      {
        ItemsSkip(js, pos, depth, braced, max - count);
        PrependEnds(kids);
        SkipWs();
        if pos >= |js| {
          return ERR_JSON;
        }
        ghost var item;
        rc, item := AddItem(idx, depth, braced, before, t0.(size := |kids|), kids);
        if rc < 0 {
          return rc;
        }
        rest := AfterItem(js, pos, depth, braced, max - count);
        PrependSnoc(kids, item, rest);
        kids := kids + [item];
        PrependEnds(kids);
        SkipWs();
        if pos >= |js| {
          return ERR_JSON;
        }
        if js[pos] == ',' {
          pos := pos + 1;
        } else if js[pos] == Closing(braced) {
          CloseContainer(idx, before, t0.(size := |kids|), kids);
          return idx;
        } else {
          return ERR_JSON;
        }
      }
    }

    /** The parser stands on the opening bracket. */
    method ParseContainerAt(parent: int, depth: nat, braced: bool) returns (idx: int)
      requires Valid() && pos < |js| && (js[pos] == '{' || js[pos] == '[') && braced == (js[pos] == '{')
      modifies this, toks
      ensures Valid() && Outcome(ParseContainer(js, old(pos), depth, max - old(count)), parent, old(Produced()), idx)
      decreases |js| - pos, 7
    {
      hide ParseContainer, ParseItems, Flatten, FlattenAll, SkipSpace, Closing;
      ghost var before, p := Produced(), ParseContainer(js, pos, depth, max - count);
      ContainerIs(js, pos, depth, max - count);
      idx := AllocTok(if braced then Object else Array, parent);
      if idx < 0 {
        return;
      }
      ghost var t := Token(if braced then Object else Array, pos, -1, 0, parent);
      pos := pos + 1;
      idx := ParseInsideAt(idx, depth, braced, before, t);
      if idx >= 0 {
        FlattenIs(before, p.node, parent);
      }
    }

    /** Behind an opening bracket: the closing one, or items. */
    method ParseInsideAt(idx: nat, depth: nat, braced: bool, ghost before: seq<Token>, ghost t0: Token) returns (rc: int)
      requires Valid() && idx == |before| && t0.size == 0 && Produced() == before + [t0]
      modifies this, toks
      ensures Valid()
      ensures var j := SkipSpace(js, old(pos));
              if j < |js| && js[j] == Closing(braced) then
                rc == idx && pos == j + 1 && Produced() == before + [t0.(end := j + 1)] + FlattenAll([], idx, idx + 1)
              else
                match ParseItems(js, j, depth, braced, max - old(count))
                case FailAll(code) => rc == code
                case GoodAll(kids, e) =>
                  && rc == idx && pos == e
                  && Produced() == before + [t0.(size := |kids|, end := e)] + FlattenAll(kids, idx, idx + 1)
      decreases |js| - pos, 12
    {
      hide ParseItems, FlattenAll, SkipSpace, Closing;
      SkipWs();
      if pos < |js| && js[pos] == Closing(braced) {
        pos := pos + 1;
        SetEnd(idx, pos);
        FlattenNone(idx, idx + 1);
        return idx;
      }
      rc := ParseItemsAt(idx, depth, braced, before, t0);
    }
  }

  /** A container by its first byte that is no space. */
  lemma ContainerIs(t: string, i: nat, depth: nat, room: nat)
    requires i < |t|
    ensures var braced := t[i] == '{'; var j := SkipSpace(t, i + 1); var kind := if braced then Object else Array;
            ParseContainer(t, i, depth, room) ==
              if room == 0 then Fail(ERR_NOMEM)
              else if j < |t| && t[j] == Closing(braced) then Good(Node(kind, i, j + 1, []), j + 1)
              else
                match ParseItems(t, j, depth, braced, room - 1)
                case FailAll(rc) => Fail(rc)
                case GoodAll(kids, e) => Good(Node(kind, i, e, kids), e)
  {
    hide ParseItems, SkipSpace, Closing;
  }

  lemma FlattenIs(before: seq<Token>, n: Node, parent: int)
    ensures before + Flatten(n, parent, |before|)
         == before + [Token(n.kind, n.start, n.end, |n.kids|, parent)] + FlattenAll(n.kids, |before|, |before| + 1)
  {
    hide FlattenAll;
  }

  /** A key without its value, and the offset behind its colon. */
  ghost function KeyRead(t: string, i: nat, room: nat): (r: Parse)
    requires i <= |t|
    ensures r.Good? ==> i < r.pos <= |t| && r.node.kids == [] && r.node.kind == String && room > 0
    ensures r.Fail? ==> r.rc < 0
  {
    var j := SkipSpace(t, i);
    if j >= |t| || t[j] != '"' then Fail(ERR_JSON)
    else
      match ParseString(t, j, room)
      case Fail(rc) => Fail(rc)
      case Good(key, e) =>
        var k := SkipSpace(t, e);
        if k >= |t| || t[k] != ':' then Fail(ERR_JSON) else Good(key, k + 1)
  }

  lemma KeyedItemRead(t: string, i: nat, depth: nat, room: nat)
    requires i <= |t|
    ensures ParseItem(t, i, depth, true, room) ==
            match KeyRead(t, i, room)
            case Fail(rc) => Fail(rc)
            case Good(key, k) =>
              match ParseValue(t, k, depth + 1, room - 1)
              case Fail(rc) => Fail(rc)
              case Good(value, e) => Good(key.(kids := [value]), e)
  {
    hide ParseValue, SkipSpace;
  }

  lemma NoKey(t: string, i: nat, depth: nat, room: nat)
    requires i <= |t|
    ensures ParseItem(t, i, depth, false, room) == ParseValue(t, i, depth + 1, room)
  {
    hide ParseValue;
  }

  /** What follows an item that ends at e. */
  ghost function AfterItem(t: string, e: nat, depth: nat, braced: bool, room: nat): Parses
    requires e <= |t|
  {
    var k := SkipSpace(t, e);
    if k >= |t| then FailAll(ERR_JSON)
    else if t[k] == ',' then ParseItems(t, k + 1, depth, braced, room)
    else if t[k] == Closing(braced) then GoodAll([], k + 1)
    else FailAll(ERR_JSON)
  }

  lemma ItemsUnfold(t: string, i: nat, depth: nat, braced: bool, room: nat)
    requires i <= |t|
    ensures SkipSpace(t, i) >= |t| ==> ParseItems(t, i, depth, braced, room) == FailAll(ERR_JSON)
    ensures SkipSpace(t, i) < |t| ==>
              match ParseItem(t, i, depth, braced, room)
              case Fail(rc) => ParseItems(t, i, depth, braced, room) == FailAll(rc)
              case Good(item, e) =>
                ParseItems(t, i, depth, braced, room)
                  == Prepend([item], AfterItem(t, e, depth, braced, room - Size(item)))
  {
    hide ParseItem, ParseValue, SkipSpace, Size;
    var item := ParseItem(t, i, depth, braced, room);
    if item.Good? {
      assert [item.node] + [] == [item.node];
    }
  }

  lemma ItemsSkip(t: string, i: nat, depth: nat, braced: bool, room: nat)
    requires i <= |t|
    ensures ParseItems(t, SkipSpace(t, i), depth, braced, room) == ParseItems(t, i, depth, braced, room)
    ensures SkipSpace(t, i) >= |t| ==> ParseItems(t, i, depth, braced, room) == FailAll(ERR_JSON)
  {
    hide ParseItem, ParseItems, SkipSpace, AfterItem, Prepend;
    ItemSkips(t, i, depth, braced, room);
    ItemsUnfold(t, i, depth, braced, room);
    ItemsUnfold(t, SkipSpace(t, i), depth, braced, room);
  }

  lemma ItemSkips(t: string, i: nat, depth: nat, braced: bool, room: nat)
    requires i <= |t|
    ensures SkipSpace(t, SkipSpace(t, i)) == SkipSpace(t, i)
    ensures ParseItem(t, SkipSpace(t, i), depth, braced, room) == ParseItem(t, i, depth, braced, room)
  {
    hide ParseValue, ParseString;
    assert SkipSpace(t, SkipSpace(t, i)) == SkipSpace(t, i);
    if !braced {
      ValueSkips(t, i, depth + 1, room);
    }
  }

  lemma ValueSkips(t: string, i: nat, depth: nat, room: nat)
    requires i <= |t|
    ensures ParseValue(t, SkipSpace(t, i), depth, room) == ParseValue(t, i, depth, room)
  {
    assert SkipSpace(t, SkipSpace(t, i)) == SkipSpace(t, i);
  }

  ghost function Prepend(kids: seq<Node>, p: Parses): Parses {
    match p
    case FailAll(rc) => FailAll(rc)
    case GoodAll(more, e) => GoodAll(kids + more, e)
  }

  lemma PrependSnoc(kids: seq<Node>, n: Node, p: Parses)
    ensures Prepend(kids, Prepend([n], p)) == Prepend(kids + [n], p)
  {
    if p.GoodAll? {
      assert kids + ([n] + p.nodes) == kids + [n] + p.nodes;
    }
  }

  lemma PrependNone(p: Parses)
    ensures Prepend([], p) == p
  {
  }

  lemma PrependEnds(kids: seq<Node>)
    ensures forall rc {:trigger FailAll(rc)} :: Prepend(kids, FailAll(rc)) == FailAll(rc)
    ensures forall e {:trigger GoodAll([], e)} :: Prepend(kids, GoodAll([], e)) == GoodAll(kids, e)
  {
    assert kids + [] == kids;
  }

  lemma FlattenNone(parent: int, base: nat)
    ensures FlattenAll([], parent, base) == []
  {
  }

  lemma OneTree(n: Node, parent: int, base: nat)
    ensures FlattenAll([n], parent, base) == Flatten(n, parent, base)
  {
    assert [n][1..] == [];
  }

  /** A key's token followed by its value's tokens, once the key's size has been set. */
  lemma KeyedFlatten(item: Node, parent: int, before: seq<Token>, value: Node)
    requires item.kids == [value]
    ensures var key := Token(item.kind, item.start, item.end, 1, parent);
            before + Flatten(item, parent, |before|) == before + [key] + Flatten(value, |before|, |before| + 1)
  {
    hide Flatten, FlattenAll;
    OneTree(value, |before|, |before| + 1);
    FlattenIs(before, item, parent);
  }

  lemma UpdateBetween<T>(before: seq<T>, t: T, a: seq<T>, b: seq<T>, t': T)
    ensures (before + [t] + a + b)[|before| := t'] == before + [t'] + (a + b)
  {
  }

  /** The string scanner shared by the tokenizer and the shallow scans. */
  method StringEndAt(js: string, start: nat) returns (r: Close)
    requires start <= |js|
    ensures r == StringEnd(js, start)
  {
    var pos := start;
    while pos < |js|
      invariant start <= pos <= |js| && StringEnd(js, pos) == StringEnd(js, start)
    {
      if js[pos] == '"' {
        return CloseAt(pos);
      }
      if js[pos] < ' ' {
        return NoClose;
      }
      if js[pos] == '\\' {
        pos := pos + 1;
        if pos >= |js| {
          return NoClose;
        }
        if js[pos] == 'u' {
          if pos + 4 >= |js| {
            return NoClose;
          }
          for i := 1 to 5
            invariant forall k :: pos < k < pos + i ==> IsHex(js[k])
          {
            if !IsHex(js[pos + i]) {
              assert StringEnd(js, pos - 1) == NoClose by {
                assert i == 1 || i == 2 || i == 3 || i == 4;
              }
              return NoClose;
            }
          }
          pos := pos + 4;
        } else if !IsEscape(js[pos]) {
          return NoClose;
        }
      }
      pos := pos + 1;
    }
    return NoClose;
  }

  /** Tokenizes a text: the error code, or the number of tokens, which are those of the text's tree. */
  method Parse(js: string, toks: array<Token>, max: int) returns (rc: int)
    requires max <= toks.Length
    modifies toks
    ensures max <= 0 || |js| > INT_MAX ==> rc == ERR_INVALID
    ensures 0 < max && |js| <= INT_MAX ==>
              match ParseDocument(js, max)
              case Refused(code) => rc == code
              case Accepted(root) => rc == Size(root) <= max && toks[..rc] == Flatten(root, -1, 0)
  {
    if max <= 0 || |js| > INT_MAX {
      return ERR_INVALID;
    }
    var p := new Parser(js, toks, max);
    var root := p.ParseValueAt(-1, 0);
    if root < 0 {
      return root;
    }
    p.SkipWs();
    if p.pos != |js| {
      return ERR_JSON;
    }
    return p.count;
  }
}
