/** Reading a value does not depend on the text behind it: cutting the text at or after its end changes nothing. */
module JsonLimit {
  import opened JsonText
  import opened JsonTree
  import opened JsonParser
  import opened JsonScan

  lemma {:induction false} SkipSpaceCut(t: string, i: nat, l: nat)
    requires i <= |t| && SkipSpace(t, i) < l <= |t|
    ensures SkipSpace(t[..l], i) == SkipSpace(t, i)
    decreases |t| - i
  {
    if i < |t| && IsSpace(t[i]) { SkipSpaceCut(t, i + 1, l); }
  }

  lemma {:induction false} StringEndCut(t: string, i: nat, l: nat)
    requires i <= |t| && StringEnd(t, i).CloseAt? && StringEnd(t, i).pos < l <= |t|
    ensures StringEnd(t[..l], i) == StringEnd(t, i)
    decreases |t| - i
  {
    if t[i] != '"' {
      if t[i] != '\\' {
        StringEndCut(t, i + 1, l);
      } else if t[i + 1] == 'u' {
        StringEndCut(t, i + 6, l);
      } else {
        StringEndCut(t, i + 2, l);
      }
    }
  }

  lemma {:induction false} PrimitiveEndCut(t: string, i: nat, l: nat)
    requires i <= |t| && PrimitiveEnd(t, i) <= l <= |t|
    ensures PrimitiveEnd(t[..l], i) == PrimitiveEnd(t, i)
    decreases |t| - i
  {
    if i < |t| && !EndsPrimitive(t[i]) { PrimitiveEndCut(t, i + 1, l); }
  }

  lemma {:induction false} ValueCut(t: string, i: nat, d: nat, room: nat, l: nat)
    requires i <= |t| && ParseValue(t, i, d, room).Good? && ParseValue(t, i, d, room).pos <= l <= |t|
    ensures ParseValue(t[..l], i, d, room) == ParseValue(t, i, d, room)
    decreases |t| - i, 1
  {
    hide ParseContainer, PrimitiveEnd, StringEnd, SkipSpace;
    var j := SkipSpace(t, i);
    SkipSpaceCut(t, i, l);
    if t[j] == '{' || t[j] == '[' {
      ContainerCut(t, j, d, room, l);
    } else if t[j] == '"' {
      StringEndCut(t, j + 1, l);
    } else {
      var e := PrimitiveEnd(t, j);
      PrimitiveEndCut(t, j, l);
      assert t[..l][j..e] == t[j..e];
    }
  }

  lemma {:induction false} ContainerCut(t: string, j: nat, d: nat, room: nat, l: nat)
    requires j < |t| && ParseContainer(t, j, d, room).Good? && ParseContainer(t, j, d, room).pos <= l <= |t|
    ensures ParseContainer(t[..l], j, d, room) == ParseContainer(t, j, d, room)
    decreases |t| - j, 0
  {
    hide ParseItems;
    var braced := t[j] == '{';
    var k := SkipSpace(t, j + 1);
    SkipSpaceCut(t, j + 1, l);
    if !(k < |t| && t[k] == Closing(braced)) {
      ItemsCut(t, k, d, braced, room - 1, l);
    }
  }

  lemma {:induction false} ItemCut(t: string, i: nat, d: nat, braced: bool, room: nat, l: nat)
    requires i <= |t| && ParseItem(t, i, d, braced, room).Good? && ParseItem(t, i, d, braced, room).pos <= l <= |t|
    ensures ParseItem(t[..l], i, d, braced, room) == ParseItem(t, i, d, braced, room)
    decreases |t| - i, 2
  {
    hide ParseValue, SkipSpace, StringEnd;
    if braced {
      var j := SkipSpace(t, i);
      SkipSpaceCut(t, i, l);
      var key := ParseString(t, j, room);
      StringEndCut(t, j + 1, l);
      var k := SkipSpace(t, key.pos);
      SkipSpaceCut(t, key.pos, l);
      ValueCut(t, k + 1, d + 1, room - 1, l);
    } else {
      ValueCut(t, i, d + 1, room, l);
    }
  }

  lemma {:induction false} ItemsCut(t: string, i: nat, d: nat, braced: bool, room: nat, l: nat)
    requires i <= |t| && ParseItems(t, i, d, braced, room).GoodAll? && ParseItems(t, i, d, braced, room).pos <= l <= |t|
    ensures ParseItems(t[..l], i, d, braced, room) == ParseItems(t, i, d, braced, room)
    decreases |t| - i, 3
  {
    hide ParseItem, ParseItems, SkipSpace, Prepend;
    var item := ParseItem(t, i, d, braced, room);
    ItemsSplit(t, i, d, braced, room);
    ItemCut(t, i, d, braced, room, l);
    ItemStarts(t, i, d, braced, room);
    SkipSpaceCut(t, i, l);
    var k := SkipSpace(t, item.pos);
    SkipSpaceCut(t, item.pos, l);
    if t[k] == ',' {
      ItemsCut(t, k + 1, d, braced, room - Size(item.node), l);
    }
    ItemsUnfold(t, i, d, braced, room);
    ItemsUnfold(t[..l], i, d, braced, room);
  }

  /** An item begins at the first byte that is not white space. */
  lemma ItemStarts(t: string, i: nat, d: nat, braced: bool, room: nat)
    requires i <= |t| && ParseItem(t, i, d, braced, room).Good?
    ensures SkipSpace(t, i) < ParseItem(t, i, d, braced, room).pos
  {
  }
}
