/**
 * The shallow scanner: one value at a time in constant memory. It only balances brackets and counts commas one
 * level down, yet on a text the tokenizer accepts it sees exactly what the tokenizer saw.
 */
module JsonScan {
  import opened JsonText
  import opened JsonTree

  // -------------------------------------------------------------------------------- specification

  /** A scanned container body: the offset after its closing bracket, and the number of children. */
  datatype Walked = Stray | Closed(end: nat, size: nat)

  /** The walk through a container from offset i, `depth` brackets deep, `commas` seen one level down. */
  function Walk(t: string, i: nat, close: char, depth: nat, commas: nat, empty: bool): (w: Walked)
    requires i <= |t| && depth >= 1
    ensures w.Closed? ==> i < w.end <= |t|
    decreases |t| - i
  {
    if i >= |t| then Stray
    else if t[i] == '"' then
      match StringEnd(t, i + 1)
      case NoClose => Stray
      case CloseAt(e) => Walk(t, e + 1, close, depth, commas, false)
    else if t[i] == '{' || t[i] == '[' then Walk(t, i + 1, close, depth + 1, commas, false)
    else if t[i] == '}' || t[i] == ']' then
      if depth > 1 then Walk(t, i + 1, close, depth - 1, commas, empty)
      else if t[i] != close then Stray
      else Closed(i + 1, if empty then 0 else commas + 1)
    else if depth == 1 && t[i] == ',' then Walk(t, i + 1, close, depth, commas + 1, empty)
    else Walk(t, i + 1, close, depth, commas, empty && (depth != 1 || IsSpace(t[i])))
  }

  /** A scanned value: what its token says, and the offset after it. */
  datatype Scanned = Unscanned | Seen(token: Token, next: nat)

  function Scan(t: string, start: nat): (r: Scanned)
    requires start <= |t|
    ensures r.Seen? ==> start < r.next <= |t|
  {
    var i := SkipSpace(t, start);
    if i >= |t| then Unscanned
    else if t[i] == '"' then
      match StringEnd(t, i + 1)
      case NoClose => Unscanned
      case CloseAt(e) => Seen(Token(String, i + 1, e, 0, -1), e + 1)
    else if t[i] == '{' || t[i] == '[' then
      match Walk(t, i + 1, Closing(t[i] == '{'), 1, 0, true)
      case Stray => Unscanned
      case Closed(e, size) => Seen(Token(if t[i] == '{' then Object else Array, i, e, size, -1), e)
    else
      var e := PrimitiveEnd(t, i);
      if CheckPrimitive(t[i..e]) then Seen(Token(Primitive, i, e, 0, -1), e) else Unscanned
  }

  // ---------------------------------------------------------------------- the walk over parsed text

  /** How a successful ParseItems splits: an item, then a comma and more items, or the closing bracket. */
  lemma ItemsSplit(t: string, i: nat, d: nat, braced: bool, room: nat)
    requires i <= |t| && ParseItems(t, i, d, braced, room).GoodAll?
    ensures var p, item := ParseItems(t, i, d, braced, room), ParseItem(t, i, d, braced, room);
            && item.Good?
            && var k := SkipSpace(t, item.pos);
               && k < |t|
               && if t[k] == ',' then
                    var q := ParseItems(t, k + 1, d, braced, room - Size(item.node));
                    q.GoodAll? && p == GoodAll([item.node] + q.nodes, q.pos)
                  else t[k] == Closing(braced) && p == GoodAll([item.node], k + 1)
  {
    hide ParseItem;
  }

  lemma {:induction false} WalkSpace(t: string, i: nat, close: char, depth: nat, commas: nat, empty: bool)
    requires i <= |t| && depth >= 1
    ensures Walk(t, i, close, depth, commas, empty) == Walk(t, SkipSpace(t, i), close, depth, commas, empty)
    decreases |t| - i
  {
    if i < |t| && IsSpace(t[i]) {
      WalkSpace(t, i + 1, close, depth, commas, empty);
    }
  }

  lemma {:induction false} WalkPlain(t: string, i: nat, j: nat, close: char, depth: nat, commas: nat, empty: bool)
    requires i <= j <= |t| && depth >= 1 && (depth == 1 || !empty) && forall k :: i <= k < j ==> Plain(t[k])
    ensures Walk(t, i, close, depth, commas, empty) == Walk(t, j, close, depth, commas, empty && i == j)
    decreases j - i
  {
    if i < j {
      WalkPlain(t, i + 1, j, close, depth, commas, false);
    }
  }

  /** Walking over a parsed value changes nothing but the mark that something was there. */
  lemma {:induction false} WalkValue(t: string, i: nat, d: nat, room: nat, close: char, depth: nat, commas: nat, empty: bool)
    requires i <= |t| && ParseValue(t, i, d, room).Good? && depth >= 1 && (depth == 1 || !empty)
    ensures var e := ParseValue(t, i, d, room).pos;
            Walk(t, i, close, depth, commas, empty) == Walk(t, e, close, depth, commas, false)
    decreases |t| - i, 1
  {
    hide ParseContainer;
    var j := SkipSpace(t, i);
    WalkSpace(t, i, close, depth, commas, empty);
    if t[j] == '{' || t[j] == '[' {
      WalkContainer(t, j, d, room, close, depth, commas, empty);
    } else if t[j] != '"' {
      var e := PrimitiveEnd(t, j);
      PrimitiveIsPlain(t[j..e]);
      forall k | j <= k < e ensures Plain(t[k]) { assert t[k] == t[j..e][k - j]; }
      WalkPlain(t, j, e, close, depth, commas, empty);
    }
  }

  lemma {:induction false} WalkContainer(t: string, j: nat, d: nat, room: nat, close: char, depth: nat, commas: nat, empty: bool)
    requires j < |t| && (t[j] == '{' || t[j] == '[') && ParseContainer(t, j, d, room).Good? && depth >= 1
    requires depth == 1 || !empty
    ensures var e := ParseContainer(t, j, d, room).pos;
            Walk(t, j, close, depth, commas, empty) == Walk(t, e, close, depth, commas, false)
    decreases |t| - j, 0
  {
    hide ParseItems, SkipSpace;
    var braced := t[j] == '{';
    var k := SkipSpace(t, j + 1);
    WalkSpace(t, j + 1, close, depth + 1, commas, false);
    if !(k < |t| && t[k] == Closing(braced)) {
      WalkInner(t, k, d, braced, room - 1, close, depth + 1, commas);
    }
  }

  lemma {:induction false} WalkItem(t: string, i: nat, d: nat, braced: bool, room: nat, close: char, depth: nat,
                                    commas: nat, empty: bool)
    requires i <= |t| && ParseItem(t, i, d, braced, room).Good? && depth >= 1 && (depth == 1 || !empty)
    ensures var e := ParseItem(t, i, d, braced, room).pos;
            Walk(t, i, close, depth, commas, empty) == Walk(t, e, close, depth, commas, false)
    decreases |t| - i, 2
  {
    hide ParseValue;
    if braced {
      var j := SkipSpace(t, i);
      WalkSpace(t, i, close, depth, commas, empty);
      var key := ParseString(t, j, room);
      var k := SkipSpace(t, key.pos);
      WalkSpace(t, key.pos, close, depth, commas, false);
      WalkValue(t, k + 1, d + 1, room - 1, close, depth, commas, false);
    } else {
      WalkValue(t, i, d + 1, room, close, depth, commas, empty);
    }
  }

  /** Inside a nested container, commas do not count and the bracket only closes its own level. */
  lemma {:induction false} WalkInner(t: string, i: nat, d: nat, braced: bool, room: nat, close: char, depth: nat, commas: nat)
    requires i <= |t| && ParseItems(t, i, d, braced, room).GoodAll? && depth >= 2
    ensures var e := ParseItems(t, i, d, braced, room).pos;
            Walk(t, i, close, depth, commas, false) == Walk(t, e, close, depth - 1, commas, false)
    decreases |t| - i, 3
  {
    hide ParseItem, ParseItems;
    ItemsSplit(t, i, d, braced, room);
    WalkItem(t, i, d, braced, room, close, depth, commas, false);
    var item := ParseItem(t, i, d, braced, room);
    var k := SkipSpace(t, item.pos);
    WalkSpace(t, item.pos, close, depth, commas, false);
    if t[k] == ',' {
      WalkInner(t, k + 1, d, braced, room - Size(item.node), close, depth, commas);
    }
  }

  /** At the scanned container's own level, the commas count its children. */
  lemma {:induction false} WalkOuter(t: string, i: nat, d: nat, braced: bool, room: nat, commas: nat, empty: bool)
    requires i <= |t| && ParseItems(t, i, d, braced, room).GoodAll?
    ensures var p := ParseItems(t, i, d, braced, room);
            Walk(t, i, Closing(braced), 1, commas, empty) == Closed(p.pos, commas + |p.nodes|)
    decreases |t| - i
  {
    hide ParseItem, ParseItems;
    ItemsSplit(t, i, d, braced, room);
    WalkItem(t, i, d, braced, room, Closing(braced), 1, commas, empty);
    var item := ParseItem(t, i, d, braced, room);
    var k := SkipSpace(t, item.pos);
    WalkSpace(t, item.pos, Closing(braced), 1, commas, false);
    if t[k] == ',' {
      WalkOuter(t, k + 1, d, braced, room - Size(item.node), commas + 1, false);
    }
  }

  /** The token the scanner reports for a node: as the tokenizer's, but without a parent, and no children on keys. */
  function Shallow(n: Node): Token {
    Token(n.kind, n.start, n.end, if n.kind == String then 0 else |n.kids|, -1)
  }

  /** Scanning where the tokenizer parsed gives the same value, and stops at the same place. */
  lemma ScanMatchesParse(t: string, i: nat, d: nat, room: nat)
    requires i <= |t| && ParseValue(t, i, d, room).Good?
    ensures var p := ParseValue(t, i, d, room); Scan(t, i) == Seen(Shallow(p.node), p.pos)
  {
    hide ParseItems, Walk;
    var j := SkipSpace(t, i);
    if t[j] == '{' || t[j] == '[' {
      var braced := t[j] == '{';
      var k := SkipSpace(t, j + 1);
      WalkSpace(t, j + 1, Closing(braced), 1, 0, true);
      if k < |t| && t[k] == Closing(braced) {
        WalkEmpty(t, k, braced);
      } else {
        WalkOuter(t, k, d, braced, room - 1, 0, true);
      }
    }
  }

  lemma WalkEmpty(t: string, i: nat, braced: bool)
    requires i < |t| && t[i] == Closing(braced)
    ensures Walk(t, i, Closing(braced), 1, 0, true) == Closed(i + 1, 0)
  {
  }
}
