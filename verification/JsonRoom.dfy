/** Which error a refused text gets: how many tokens the caller has room for decides nothing else. */
module JsonRoom {
  import opened Status
  import opened JsonText
  import opened JsonTree
  import opened JsonParser

  /** A parse with less room gives the same, or runs out of it: surely when there is a result that does not fit. */
  ghost predicate Fitted(r: Parse, b: Parse, room: nat) {
    match b
    case Good(n, _) => r == if Size(n) <= room then b else Fail(ERR_NOMEM)
    case Fail(_) => r == b || r == Fail(ERR_NOMEM)
  }

  ghost predicate AllFitted(r: Parses, b: Parses, room: nat) {
    match b
    case GoodAll(ns, _) => r == if Sizes(ns) <= room then b else FailAll(ERR_NOMEM)
    case FailAll(_) => r == b || r == FailAll(ERR_NOMEM)
  }

  lemma LeafFits(t: string, i: nat, room: nat, big: nat)
    requires i < |t| && room <= big
    ensures t[i] == '"' ==> Fitted(ParseString(t, i, room), ParseString(t, i, big), room)
    ensures Fitted(ParsePrimitive(t, i, room), ParsePrimitive(t, i, big), room)
  {
    hide StringEnd, PrimitiveEnd, CheckPrimitive;
  }

  lemma {:induction false} ValueFits(t: string, i: nat, d: nat, room: nat, big: nat)
    requires i <= |t| && room <= big
    ensures Fitted(ParseValue(t, i, d, room), ParseValue(t, i, d, big), room)
    decreases |t| - i, 3
  {
    hide ParseContainer, ParsePrimitive, ParseString, SkipSpace, Fitted;
    if d <= MAX_DEPTH {
      var j := SkipSpace(t, i);
      if j < |t| {
        if t[j] == '{' || t[j] == '[' {
          ContainerFits(t, j, d, room, big);
        } else {
          LeafFits(t, j, room, big);
        }
      } else {
        Same(ParseValue(t, i, d, room), room);
      }
    } else {
      Same(ParseValue(t, i, d, room), room);
    }
  }

  lemma Same(r: Parse, room: nat)
    requires r.Fail?
    ensures Fitted(r, r, room)
  {
  }

  lemma {:induction false} ContainerFits(t: string, i: nat, d: nat, room: nat, big: nat)
    requires i < |t| && (t[i] == '{' || t[i] == '[') && d <= MAX_DEPTH && room <= big
    ensures Fitted(ParseContainer(t, i, d, room), ParseContainer(t, i, d, big), room)
    decreases |t| - i, 2
  {
    hide ParseItems, SkipSpace, Sizes;
    if room > 0 {
      var j := SkipSpace(t, i + 1);
      if !(j < |t| && t[j] == Closing(t[i] == '{')) {
        ItemsFit(t, j, d, t[i] == '{', room - 1, big - 1);
      } else {
        NoKids();
      }
    }
  }

  lemma NoKids()
    ensures Sizes([]) == 0
  {
  }

  lemma {:induction false} ItemFits(t: string, i: nat, d: nat, braced: bool, room: nat, big: nat)
    requires i <= |t| && d <= MAX_DEPTH && room <= big
    ensures Fitted(ParseItem(t, i, d, braced, room), ParseItem(t, i, d, braced, big), room)
    decreases |t| - i, 4
  {
    hide ParseValue, ParseString, SkipSpace, Size;
    if !braced {
      ValueFits(t, i, d + 1, room, big);
    } else {
      var j := SkipSpace(t, i);
      if j < |t| && t[j] == '"' {
        KeyFits(t, j, room, big);
        var key := ParseString(t, j, big);
        if key.Good? && room > 0 {
          var k := SkipSpace(t, key.pos);
          if k < |t| && t[k] == ':' {
            ValueFits(t, k + 1, d + 1, room - 1, big - 1);
            var value := ParseValue(t, k + 1, d + 1, big - 1);
            if value.Good? {
              KeyedSize(key.node, value.node);
            }
          }
        }
      }
    }
  }

  lemma KeyFits(t: string, j: nat, room: nat, big: nat)
    requires j < |t| && t[j] == '"' && room <= big
    ensures ParseString(t, j, room) == if room > 0 then ParseString(t, j, big) else Fail(ERR_NOMEM)
    ensures ParseString(t, j, big).Good? ==> big > 0
  {
    hide StringEnd;
  }

  lemma KeyedSize(key: Node, value: Node)
    ensures Size(key.(kids := [value])) == 1 + Size(value)
  {
    NoKids();
    ConsSizes(value, []);
    assert [value] + [] == [value];
  }

  lemma {:induction false} ItemsFit(t: string, i: nat, d: nat, braced: bool, room: nat, big: nat)
    requires i <= |t| && d <= MAX_DEPTH && room <= big
    ensures AllFitted(ParseItems(t, i, d, braced, room), ParseItems(t, i, d, braced, big), room)
    decreases |t| - i, 5
  {
    hide ParseItem, ParseItems, SkipSpace, Size, Sizes, AfterItem, Prepend, AllFitted;
    if SkipSpace(t, i) < |t| {
      ItemFits(t, i, d, braced, room, big);
      var item := ParseItem(t, i, d, braced, big);
      if item.Good? && Size(item.node) <= room {
        AfterFits(t, item.pos, d, braced, room - Size(item.node), big - Size(item.node));
      }
      ItemsJoin(t, i, d, braced, room, big);
    } else {
      NoItems(t, i, d, braced, room, big);
    }
  }

  lemma NoItems(t: string, i: nat, d: nat, braced: bool, room: nat, big: nat)
    requires i <= |t| && SkipSpace(t, i) >= |t|
    ensures AllFitted(ParseItems(t, i, d, braced, room), ParseItems(t, i, d, braced, big), room)
  {
    hide ParseItem, SkipSpace;
  }

  lemma {:induction false} AfterFits(t: string, e: nat, d: nat, braced: bool, room: nat, big: nat)
    requires e <= |t| && d <= MAX_DEPTH && room <= big
    ensures AllFitted(AfterItem(t, e, d, braced, room), AfterItem(t, e, d, braced, big), room)
    decreases |t| - e, 0
  {
    hide ParseItems, SkipSpace;
    var k := SkipSpace(t, e);
    if k < |t| && t[k] == ',' {
      ItemsFit(t, k + 1, d, braced, room, big);
    }
    NoKids();
  }

  /** An item and what follows it, each fitting or not. */
  lemma ItemsJoin(t: string, i: nat, d: nat, braced: bool, room: nat, big: nat)
    requires i <= |t| && SkipSpace(t, i) < |t| && room <= big
    requires Fitted(ParseItem(t, i, d, braced, room), ParseItem(t, i, d, braced, big), room)
    requires var item := ParseItem(t, i, d, braced, big);
             item.Good? && Size(item.node) <= room ==>
               AllFitted(AfterItem(t, item.pos, d, braced, room - Size(item.node)),
                         AfterItem(t, item.pos, d, braced, big - Size(item.node)), room - Size(item.node))
    ensures AllFitted(ParseItems(t, i, d, braced, room), ParseItems(t, i, d, braced, big), room)
  {
    hide ParseItem, ParseItems, SkipSpace, Size, Sizes, AfterItem;
    ItemsUnfold(t, i, d, braced, room);
    ItemsUnfold(t, i, d, braced, big);
    var item := ParseItem(t, i, d, braced, big);
    if item.Good? {
      var rest := AfterItem(t, item.pos, d, braced, big - Size(item.node));
      if rest.GoodAll? {
        ConsSizes(item.node, rest.nodes);
      }
    }
  }

  lemma ConsSizes(n: Node, ns: seq<Node>)
    ensures Sizes([n] + ns) == Size(n) + Sizes(ns)
  {
    hide Size;
    assert ([n] + ns)[1..] == ns;
  }

  // ----------------------------------------------------------------------------- as much as the text needs

  /** A value needs no more tokens than it has bytes. */
  lemma {:induction false} ValueNeeds(t: string, i: nat, d: nat, room: nat)
    requires i <= |t| && room >= |t| - i
    ensures var r := ParseValue(t, i, d, room); (r.Fail? ==> r.rc == ERR_JSON) && (r.Good? ==> Size(r.node) <= r.pos - i)
    decreases |t| - i, 3
  {
    hide ParseContainer, SkipSpace, StringEnd, PrimitiveEnd, CheckPrimitive;
    NoKids();
    if d <= MAX_DEPTH {
      var j := SkipSpace(t, i);
      if j < |t| && (t[j] == '{' || t[j] == '[') {
        ContainerNeeds(t, j, d, room);
      }
    }
  }

  lemma {:induction false} ContainerNeeds(t: string, i: nat, d: nat, room: nat)
    requires i < |t| && (t[i] == '{' || t[i] == '[') && d <= MAX_DEPTH && room >= |t| - i
    ensures var r := ParseContainer(t, i, d, room); (r.Fail? ==> r.rc == ERR_JSON) && (r.Good? ==> Size(r.node) <= r.pos - i)
    decreases |t| - i, 2
  {
    hide ParseItems, SkipSpace, Sizes;
    NoKids();
    var j := SkipSpace(t, i + 1);
    if !(j < |t| && t[j] == Closing(t[i] == '{')) {
      ItemsNeed(t, j, d, t[i] == '{', room - 1);
    }
  }

  lemma {:induction false} ItemNeeds(t: string, i: nat, d: nat, braced: bool, room: nat)
    requires i <= |t| && d <= MAX_DEPTH && room >= |t| - i
    ensures var r := ParseItem(t, i, d, braced, room); (r.Fail? ==> r.rc == ERR_JSON) && (r.Good? ==> Size(r.node) <= r.pos - i)
    decreases |t| - i, 4
  {
    hide ParseValue, SkipSpace, StringEnd, Size;
    if !braced {
      ValueNeeds(t, i, d + 1, room);
    } else {
      var j := SkipSpace(t, i);
      if j < |t| && t[j] == '"' {
        var key := ParseString(t, j, room);
        if key.Good? {
          var k := SkipSpace(t, key.pos);
          if k < |t| && t[k] == ':' {
            ValueNeeds(t, k + 1, d + 1, room - 1);
            var value := ParseValue(t, k + 1, d + 1, room - 1);
            if value.Good? {
              KeyedSize(key.node, value.node);
            }
          }
        }
      }
    }
  }

  lemma {:induction false} ItemsNeed(t: string, i: nat, d: nat, braced: bool, room: nat)
    requires i <= |t| && d <= MAX_DEPTH && room >= |t| - i
    ensures var r := ParseItems(t, i, d, braced, room); (r.FailAll? ==> r.rc == ERR_JSON) && (r.GoodAll? ==> Sizes(r.nodes) <= r.pos - i)
    decreases |t| - i, 5
  {
    hide ParseItem, ParseItems, SkipSpace, Size, Sizes, AfterItem;
    ItemsUnfold(t, i, d, braced, room);
    if SkipSpace(t, i) < |t| {
      ItemNeeds(t, i, d, braced, room);
      var item := ParseItem(t, i, d, braced, room);
      if item.Good? {
        AfterNeeds(t, item.pos, d, braced, room - Size(item.node));
        var rest := AfterItem(t, item.pos, d, braced, room - Size(item.node));
        if rest.GoodAll? {
          ConsSizes(item.node, rest.nodes);
        }
      }
    }
  }

  lemma {:induction false} AfterNeeds(t: string, e: nat, d: nat, braced: bool, room: nat)
    requires e <= |t| && d <= MAX_DEPTH && room >= |t| - e
    ensures var r := AfterItem(t, e, d, braced, room); (r.FailAll? ==> r.rc == ERR_JSON) && (r.GoodAll? ==> Sizes(r.nodes) <= r.pos - e)
    decreases |t| - e, 0
  {
    hide ParseItems, SkipSpace, Sizes;
    NoKids();
    var k := SkipSpace(t, e);
    if k < |t| && t[k] == ',' {
      ItemsNeed(t, k + 1, d, braced, room);
    }
  }

  /**
   * With room for as many tokens as the text has bytes only malformed texts are refused. With any other room a text is
   * refused for lack of it if it is well-formed and has more tokens, and accepted alike if it has not.
   */
  lemma RefusedFor(t: string, room: nat)
    ensures var ideal, r := ParseDocument(t, |t|), ParseDocument(t, room);
            match ideal
            case Accepted(root) => r == if Size(root) <= room then ideal else Refused(ERR_NOMEM)
            case Refused(rc) => rc == ERR_JSON && (r == ideal || (room < |t| && r == Refused(ERR_NOMEM)))
  {
    hide ParseValue, SkipSpace, Size;
    ValueNeeds(t, 0, 0, |t|);
    if room <= |t| {
      ValueFits(t, 0, 0, room, |t|);
    } else {
      ValueNeeds(t, 0, 0, room);
      ValueFits(t, 0, 0, |t|, room);
    }
  }
}
