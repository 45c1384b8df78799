/** Walking an object's members and an array's elements with the shallow scanner alone. */
module JsonIterate {
  import opened Status
  import opened JsonText
  import opened JsonTree
  import opened JsonParser
  import opened JsonScan
  import opened JsonTokens

  // -------------------------------------------------------------------------------- specification

  datatype Found = Missing | Malformed | Value(token: Token)

  /**
   * The members of an object from offset i on; the text ends where the object does. `first` says that no member
   * has been read yet, `found` holds the value already matched.
   */
  function ScanMembers(t: string, i: nat, first: bool, found: Found, name: string): Found
    requires i <= |t|
    decreases |t| - i, 1
  {
    var j := SkipSpace(t, i);
    if j >= |t| then Malformed
    else if t[j] == '}' then (if j + 1 != |t| then Malformed else found)
    else if first then ScanMember(t, j, found, name)
    else if t[j] != ',' then Malformed
    else
      var k := SkipSpace(t, j + 1);
      if k >= |t| then Malformed else ScanMember(t, k, found, name)
  }

  /** One member, whose key starts at i, and the members after it. */
  function ScanMember(t: string, i: nat, found: Found, name: string): Found
    requires i < |t|
    decreases |t| - i, 0
  {
    if t[i] != '"' then Malformed
    else
      match Scan(t, i)
      case Unscanned => Malformed
      case Seen(key, e) =>
        var j := SkipSpace(t, e);
        if j >= |t| || t[j] != ':' then Malformed
        else
          match Scan(t, j + 1)
          case Unscanned => Malformed
          case Seen(value, e') =>
            ScanMembers(t, e', false, if found.Missing? && Named(t, key, name) then Value(value) else found, name)
  }

  /** The value of a name in an object token. */
  function ScanKey(js: string, obj: Token, name: string): Found
    requires obj.kind == Object && 0 <= obj.start < obj.end <= |js|
  {
    ScanMembers(js[..obj.end], obj.start + 1, true, Missing, name)
  }

  /** The code a lookup returns. */
  function FoundCode(f: Found): int {
    match f
    case Missing => ERR_MISSING
    case Malformed => ERR_JSON
    case Value(_) => OK
  }

  datatype Next = Broken | Finished(cursor: nat) | Element(token: Token, cursor: nat)

  /** One step through an array token; cursor 0 stands for "not started". */
  function ScanNext(js: string, arr: Token, cursor: nat): Next
    requires arr.kind == Array && 0 <= arr.start < arr.end <= |js|
  {
    var t, from := js[..arr.end], if cursor == 0 then arr.start + 1 else cursor;
    if from > |t| || SkipSpace(t, from) == |t| then Broken
    else
      var i := SkipSpace(t, from);
      if t[i] == ']' then Finished(i)
      else if cursor == 0 then ScanElement(t, i)
      else if t[i] != ',' then Broken
      else
        var j := SkipSpace(t, i + 1);
        if j >= |t| || t[j] == ']' || t[j] == ',' then Broken else ScanElement(t, j)
  }

  function ScanElement(t: string, i: nat): Next
    requires i <= |t|
  {
    match Scan(t, i)
    case Unscanned => Broken
    case Seen(token, e) => Element(token, e)
  }

  // ------------------------------------------------------------------------------------- the loops

  method SkipSpaceAt(t: string, start: nat) returns (pos: nat)
    requires start <= |t|
    ensures pos == SkipSpace(t, start)
  {
    pos := start;
    while pos < |t| && IsSpace(t[pos])
      invariant pos <= |t| && SkipSpace(t, pos) == SkipSpace(t, start)
    {
      pos := pos + 1;
    }
  }

  /** Walks from an opening bracket to its match. */
  method WalkAt(t: string, pos: nat) returns (w: Walked)
    requires pos < |t| && (t[pos] == '{' || t[pos] == '[')
    ensures w == Walk(t, pos + 1, Closing(t[pos] == '{'), 1, 0, true)
  {
    ghost var goal := Walk(t, pos + 1, Closing(t[pos] == '{'), 1, 0, true);
    var close := if t[pos] == '{' then '}' else ']';
    var depth, commas, empty, i := 0, 0, true, pos;
    while i < |t|
      invariant pos <= i <= |t|
      invariant i == pos ==> depth == 0 && commas == 0 && empty
      invariant i > pos ==> depth >= 1 && Walk(t, i, close, depth, commas, empty) == goal
    {
      var ch := t[i];
      if ch == '"' {
        var end := StringEndAt(t, i + 1);
        if end.NoClose? {
          return Stray;
        }
        empty := false;
        i := end.pos + 1;
        continue;
      }
      if ch == '{' || ch == '[' {
        if depth > 0 {
          empty := false;
        }
        depth := depth + 1;
      } else if ch == '}' || ch == ']' {
        depth := depth - 1;
        if depth == 0 {
          if ch != close {
            return Stray;
          }
          return Closed(i + 1, if empty then 0 else commas + 1);
        }
      } else if depth == 1 {
        if ch == ',' {
          commas := commas + 1;
        } else if !IsSpace(ch) {
          empty := false;
        }
      }
      i := i + 1;
    }
    return Stray;
  }

  method ScanFrom(t: string, start: nat) returns (r: Scanned)
    requires start <= |t|
    ensures r == Scan(t, start)
  {
    var pos := SkipSpaceAt(t, start);
    if pos >= |t| {
      return Unscanned;
    }
    var c := t[pos];
    if c == '"' {
      var close := StringEndAt(t, pos + 1);
      if close.NoClose? {
        return Unscanned;
      }
      return Seen(Token(String, pos + 1, close.pos, 0, -1), close.pos + 1);
    }
    if c == '{' || c == '[' {
      var w := WalkAt(t, pos);
      if w.Stray? {
        return Unscanned;
      }
      return Seen(Token(if c == '{' then Object else Array, pos, w.end, w.size, -1), w.end);
    }
    var end := pos;
    while end < |t| && !EndsPrimitive(t[end])
      invariant pos <= end <= |t| && PrimitiveEnd(t, end) == PrimitiveEnd(t, pos)
    {
      end := end + 1;
    }
    if !CheckPrimitive(t[pos..end]) {
      return Unscanned;
    }
    return Seen(Token(Primitive, pos, end, 0, -1), end);
  }

  method Member(js: string, obj: Token, name: string) returns (r: Found)
    requires obj.kind == Object && 0 <= obj.start < obj.end <= |js|
    ensures r == ScanKey(js, obj, name)
  {
    hide Scan, SkipSpace, Named, ScanMember;
    var t := js[..obj.end];
    var pos := obj.start + 1;
    var first := true;
    var found := Missing;
    while true
      invariant pos <= |t|
      invariant ScanMembers(t, pos, first, found, name) == ScanKey(js, obj, name)
      decreases |t| - pos
    {
      pos := SkipSpaceAt(t, pos);
      if pos >= |t| {
        return Malformed;
      }
      if t[pos] == '}' {
        if pos + 1 != |t| {
          return Malformed;
        }
        return found;
      }
      if !first {
        if t[pos] != ',' {
          return Malformed;
        }
        pos := SkipSpaceAt(t, pos + 1);
        if pos >= |t| {
          return Malformed;
        }
      }
      first := false;
      var bad;
      bad, pos, found := ReadMember(t, pos, found, name);
      if bad {
        return Malformed;
      }
    }
  }

  /** One member: its key, a colon and its value, which is kept when it is the first under the name. */
  method ReadMember(t: string, i: nat, found: Found, name: string) returns (bad: bool, next: nat, kept: Found)
    requires i < |t|
    ensures bad ==> ScanMember(t, i, found, name) == Malformed
    ensures !bad ==> i < next <= |t| && ScanMember(t, i, found, name) == ScanMembers(t, next, false, kept, name)
  {
    hide Scan, SkipSpace, Named, ScanMembers;
    bad, next, kept := true, i, found;
    if t[i] != '"' {
      return;
    }
    var key := ScanFrom(t, i);
    if key.Unscanned? {
      return;
    }
    var pos := SkipSpaceAt(t, key.next);
    if pos >= |t| || t[pos] != ':' {
      return;
    }
    var candidate := ScanFrom(t, pos + 1);
    if candidate.Unscanned? {
      return;
    }
    if found.Missing? && Named(t, key.token, name) {
      kept := Value(candidate.token);
    }
    bad, next := false, candidate.next;
  }

  method Step(js: string, arr: Token, cursor: nat) returns (r: Next)
    requires arr.kind == Array && 0 <= arr.start < arr.end <= |js|
    ensures r == ScanNext(js, arr, cursor)
  {
    var t := js[..arr.end];
    var first := cursor == 0;
    var from := if first then arr.start + 1 else cursor;
    if from > |t| {
      return Broken;
    }
    var pos := SkipSpaceAt(t, from);
    if pos >= |t| {
      return Broken;
    }
    if t[pos] == ']' {
      return Finished(pos);
    }
    if !first {
      if t[pos] != ',' {
        return Broken;
      }
      pos := SkipSpaceAt(t, pos + 1);
      if pos >= |t| || t[pos] == ']' || t[pos] == ',' {
        return Broken;
      }
    }
    var next := ScanFrom(t, pos);
    if next.Unscanned? {
      return Broken;
    }
    return Element(next.token, next.next);
  }

  // ------------------------------------------------------------------------------ what callers call

  /** The value at an offset, which may lie beyond the text: the offset behind it, or why there is none. */
  method ScanAt(js: string, start: nat) returns (rc: int, token: Token)
    ensures |js| > INT_MAX ==> rc == ERR_INVALID
    ensures |js| <= INT_MAX ==>
      if start <= |js| && Scan(js, start).Seen? then rc >= 0 && Scan(js, start) == Seen(token, rc) else rc == ERR_JSON
  {
    token := Token(Primitive, 0, 0, 0, -1);
    if |js| > INT_MAX {
      return ERR_INVALID, token;
    }
    if start > |js| {
      return ERR_JSON, token;
    }
    var r := ScanFrom(js, start);
    match r
    case Unscanned => return ERR_JSON, token;
    case Seen(value, next) => return next, value;
  }

  method ScanKeyAt(js: string, obj: Token, name: string) returns (rc: int, value: Token)
    requires 0 <= obj.start && obj.end <= |js|
    ensures obj.kind != Object || obj.end <= obj.start ==> rc == ERR_INVALID
    ensures obj.kind == Object && obj.start < obj.end ==>
      rc == FoundCode(ScanKey(js, obj, name)) && (rc == OK ==> ScanKey(js, obj, name) == Value(value))
  {
    value := Token(Primitive, 0, 0, 0, -1);
    if obj.kind != Object || obj.end <= obj.start {
      return ERR_INVALID, value;
    }
    var found := Member(js, obj, name);
    match found
    case Missing => return ERR_MISSING, value;
    case Malformed => return ERR_JSON, value;
    case Value(token) => return OK, token;
  }

  /** One step through an array, from any cursor: 1 and an element, 0 at the end, or an error that leaves the cursor. */
  method ScanNextAt(js: string, arr: Token, cursor: nat) returns (rc: int, element: Token, next: nat)
    requires 0 <= arr.start && arr.end <= |js|
    ensures arr.kind != Array || arr.end <= arr.start ==> rc == ERR_INVALID && next == cursor
    ensures arr.kind == Array && arr.start < arr.end ==>
      match ScanNext(js, arr, cursor)
      case Broken => rc == ERR_JSON && next == cursor
      case Finished(at) => rc == 0 && next == at
      case Element(token, at) => rc == 1 && element == token && next == at
  {
    element := Token(Primitive, 0, 0, 0, -1);
    if arr.kind != Array || arr.end <= arr.start {
      return ERR_INVALID, element, cursor;
    }
    var step := Step(js, arr, cursor);
    match step
    case Broken => return ERR_JSON, element, cursor;
    case Finished(at) => return 0, element, at;
    case Element(token, at) => return 1, token, at;
  }
}
