/** One row of the hub's skill list: whether it is one of the hub's fallback skills, and under which id. */
module SkillRows {
  import opened Blanks
  import opened Status
  import opened JsonText
  import opened JsonTree
  import opened JsonScan
  import opened JsonTokens
  import opened JsonIterate
  import opened JsonEscape

  const ID_MAX: nat := 64

  /** What one row of the list comes to: an id, nothing, or an error. */
  datatype Row = Id(id: string) | Passed | Failed(code: int)

  // ------------------------------------------------------------------------------- texts in buffers

  /** What a string comparison sees of a buffer: the bytes before the first zero byte. */
  function UpToZero(s: string): (t: string)
    ensures t <= s && '\0' !in t && (t == s || s[|t|] == '\0')
  {
    if s == "" || s[0] == '\0' then "" else [s[0]] + UpToZero(s[1..])
  }

  /** Trims the text in a buffer where it stands, and returns its length. */
  method TrimInPlace(out: array<char>, len: nat) returns (n: nat)
    requires len < out.Length
    modifies out
    ensures n <= len && out[..n] == Trim(old(out[..len])) && out[n] == '\0'
  {
    hide Trim, IsBlank;
    var start := 0;
    while start < len && IsBlank(out[start])
      invariant start <= len && forall k :: 0 <= k < start ==> IsBlank(out[k])
    {
      start := start + 1;
    }
    var end := len;
    while end > start && IsBlank(out[end - 1])
      invariant start <= end <= len && forall k :: end <= k < len ==> IsBlank(out[k])
      invariant start == end ==> start == len
    {
      end := end - 1;
    }
    TrimIs(out[..len], start, end);
    n := end - start;
    assert out[..len][start..end] == out[start..start + n];
    Shift(out, start, n);
    out[n] := '\0';
  }

  method Shift(out: array<char>, start: nat, n: nat)
    requires start + n < out.Length
    modifies out
    ensures out[..n] == old(out[start..start + n])
  {
    forall k | 0 <= k < n {
      out[k] := out[start + k];
    }
  }

  // ------------------------------------------------------------------------- tokens the scanner gives

  /** A token whose span the scanner has checked. */
  ghost predicate Checked(t: string, tok: Token) {
    && 0 <= tok.start <= tok.end <= |t|
    && (tok.kind == String ==> tok.end < |t| && StringEnd(t, tok.start) == CloseAt(tok.end))
    && (tok.kind == Object || tok.kind == Array ==> tok.start < tok.end)
  }

  lemma ScanChecks(t: string, i: nat)
    requires i <= |t| && Scan(t, i).Seen?
    ensures Checked(t, Scan(t, i).token)
  {
  }

  lemma {:induction false} MembersCheck(t: string, i: nat, first: bool, found: Found, name: string)
    requires i <= |t| && (found.Value? ==> Checked(t, found.token))
    ensures var r := ScanMembers(t, i, first, found, name); r.Value? ==> Checked(t, r.token)
    decreases |t| - i, 1
  {
    hide Scan, SkipSpace, Named, ScanMember, Checked;
    var j := SkipSpace(t, i);
    if j < |t| && t[j] != '}' {
      if first {
        MemberChecks(t, j, found, name);
      } else if t[j] == ',' && SkipSpace(t, j + 1) < |t| {
        MemberChecks(t, SkipSpace(t, j + 1), found, name);
      }
    }
  }

  lemma {:induction false} MemberChecks(t: string, i: nat, found: Found, name: string)
    requires i < |t| && (found.Value? ==> Checked(t, found.token))
    ensures var r := ScanMember(t, i, found, name); r.Value? ==> Checked(t, r.token)
    decreases |t| - i, 0
  {
    hide Scan, SkipSpace, Named, ScanMembers, Checked;
    var key := Scan(t, i);
    if key.Seen? {
      var j := SkipSpace(t, key.next);
      if j < |t| && Scan(t, j + 1).Seen? {
        var value := Scan(t, j + 1);
        ScanChecks(t, j + 1);
        MembersCheck(t, value.next, false, if found.Missing? && Named(t, key.token, name) then Value(value.token) else found, name);
      }
    }
  }

  lemma KeyChecks(js: string, obj: Token, name: string)
    requires obj.kind == Object && 0 <= obj.start < obj.end <= |js| && ScanKey(js, obj, name).Value?
    ensures Checked(js[..obj.end], ScanKey(js, obj, name).token)
  {
    hide ScanMembers, Checked;
    MembersCheck(js[..obj.end], obj.start + 1, true, Missing, name);
  }

  lemma NextChecks(js: string, arr: Token, cursor: nat)
    requires arr.kind == Array && 0 <= arr.start < arr.end <= |js| && ScanNext(js, arr, cursor).Element?
    ensures var next := ScanNext(js, arr, cursor); Checked(js[..arr.end], next.token) && cursor < next.cursor <= arr.end
  {
    hide Scan, Checked;
    var t, from := js[..arr.end], if cursor == 0 then arr.start + 1 else cursor;
    var i := SkipSpace(t, from);
    ScanChecks(t, if cursor == 0 then i else SkipSpace(t, i + 1));
  }

  // ------------------------------------------------------------------------------------- the rule

  datatype Rule = Holds | Fails | Stops(code: int)

  function TextOf(t: string, tok: Token, room: nat): (d: Decoded)
    requires Checked(t, tok) && tok.kind == String
    ensures d.Text? ==> room > 0 ==> |d.bytes| < room
  {
    Unescape(t, tok.start, tok.end, room)
  }

  /** The session is absent, unreadable, null, empty or the default one, exactly as it was sent. */
  function SessionRule(js: string, row: Token): Rule
    requires row.kind == Object && 0 <= row.start < row.end <= |js|
  {
    match ScanKey(js, row, "session_id")
    case Missing => Holds
    case Malformed => Holds
    case Value(v) =>
      KeyChecks(js, row, "session_id");
      var t := js[..row.end];
      if v.kind == String then
        match TextOf(t, v, 8)
        case Fault(rc) => if rc == ERR_NOMEM then Fails else Stops(rc)
        case Text(s) => if s != "" && UpToZero(s) != "default" then Fails else Holds
      else if v.kind == Primitive && t[v.start..v.end] == "null" then Holds
      else Fails
  }

  /** A string equal to "fallback" stands among the elements from the cursor on; what is too long for it is passed over. */
  function CapableFrom(js: string, arr: Token, cursor: nat): Rule
    requires arr.kind == Array && 0 <= arr.start < arr.end <= |js|
    decreases arr.end - cursor
  {
    match ScanNext(js, arr, cursor)
    case Broken => Stops(ERR_JSON)
    case Finished(_) => Fails
    case Element(item, next) =>
      NextChecks(js, arr, cursor);
      if item.kind != String then CapableFrom(js, arr, next)
      else
        match TextOf(js[..arr.end], item, 9)
        case Fault(rc) => if rc == ERR_NOMEM then CapableFrom(js, arr, next) else Stops(rc)
        case Text(s) => if UpToZero(s) == "fallback" then Holds else CapableFrom(js, arr, next)
  }

  function CapableRule(js: string, row: Token): Rule
    requires row.kind == Object && 0 <= row.start < row.end <= |js|
  {
    match ScanKey(js, row, "capabilities")
    case Missing => Fails
    case Malformed => Fails
    case Value(v) =>
      KeyChecks(js, row, "capabilities");
      if v.kind != Array then Fails else CapableFrom(js, v, 0)
  }

  /** The id of a row that qualifies; a blank one names nothing. */
  function IdOf(js: string, row: Token): Row
    requires row.kind == Object && 0 <= row.start < row.end <= |js|
  {
    match ScanKey(js, row, "skill_id")
    case Missing => Passed
    case Malformed => Passed
    case Value(v) =>
      KeyChecks(js, row, "skill_id");
      if v.kind != String then Passed
      else
        match TextOf(js[..row.end], v, ID_MAX)
        case Fault(rc) => Failed(rc)
        case Text(s) => if Trim(s) == "" then Passed else Id(UpToZero(Trim(s)))
  }

  function RowOf(js: string, row: Token): Row
    requires 0 <= row.start <= row.end <= |js| && (row.kind == Object ==> row.start < row.end)
  {
    if row.kind != Object then Passed
    else
      match SessionRule(js, row)
      case Fails => Passed
      case Stops(code) => Failed(code)
      case Holds =>
        match CapableRule(js, row)
        case Fails => Passed
        case Stops(code) => Failed(code)
        case Holds => IdOf(js, row)
  }

  /** The rows of a list from the cursor on, and how the walk over them ends: 0, or an error. */
  datatype Listing = Listing(rows: seq<Row>, end: int)

  function ListFrom(js: string, arr: Token, cursor: nat): Listing
    requires arr.kind == Array && 0 <= arr.start < arr.end <= |js|
    decreases arr.end - cursor
  {
    match ScanNext(js, arr, cursor)
    case Broken => Listing([], ERR_JSON)
    case Finished(_) => Listing([], 0)
    case Element(row, next) =>
      NextChecks(js, arr, cursor);
      var rest := ListFrom(js, arr, next);
      Listing([RowOf(js, row)] + rest.rows, rest.end)
  }

  /** The text is one list; its first byte is taken for the opening bracket. */
  function Whole(js: string): Token {
    Token(Array, 0, |js|, 0, -1)
  }

  function ListOf(js: string): Listing {
    if js == "" then Listing([], ERR_INVALID) else ListFrom(js, Whole(js), 0)
  }

  // ------------------------------------------------------------------------------ errors are negative

  lemma {:induction false} FaultIsNegative(t: string, i: nat, end: nat, room: nat)
    requires i <= end < |t| && StringEnd(t, i) == CloseAt(end)
    ensures var d := Unescape(t, i, end, room); d.Fault? ==> d.rc == ERR_JSON || d.rc == ERR_NOMEM
    decreases end - i
  {
    hide DecodeStep, StringEnd;
    if i < end && DecodeStep(t, i, end).Step? {
      StepStays(t, i, end);
      var step := DecodeStep(t, i, end);
      if |step.bytes| < room {
        FaultIsNegative(t, step.next, end, room - |step.bytes|);
      }
    }
  }

  lemma TextFault(t: string, tok: Token, room: nat)
    requires Checked(t, tok) && tok.kind == String
    ensures var d := TextOf(t, tok, room); d.Fault? ==> d.rc == ERR_JSON || d.rc == ERR_NOMEM
  {
    hide StringEnd, Unescape;
    FaultIsNegative(t, tok.start, tok.end, room);
  }

  lemma {:induction false} CapableStops(js: string, arr: Token, cursor: nat)
    requires arr.kind == Array && 0 <= arr.start < arr.end <= |js|
    ensures var r := CapableFrom(js, arr, cursor); r.Stops? ==> r.code == ERR_JSON
    decreases arr.end - cursor
  {
    hide ScanNext, TextOf, UpToZero, Checked;
    var next := ScanNext(js, arr, cursor);
    if next.Element? {
      NextChecks(js, arr, cursor);
      CapableStops(js, arr, next.cursor);
      if next.token.kind == String {
        TextFault(js[..arr.end], next.token, 9);
      }
    }
  }

  lemma RowFailure(js: string, row: Token)
    requires 0 <= row.start <= row.end <= |js| && (row.kind == Object ==> row.start < row.end)
    ensures var r := RowOf(js, row); r.Failed? ==> r.code < 0
  {
    hide ScanKey, TextOf, CapableFrom, Trim, UpToZero, Checked;
    if row.kind == Object {
      var t, s, c, i := js[..row.end], ScanKey(js, row, "session_id"), ScanKey(js, row, "capabilities"), ScanKey(js, row, "skill_id");
      if s.Value? {
        KeyChecks(js, row, "session_id");
        if s.token.kind == String { TextFault(t, s.token, 8); }
      }
      if c.Value? {
        KeyChecks(js, row, "capabilities");
        if c.token.kind == Array { ArrayInside(js, row.end, c.token); CapableStops(js, c.token, 0); }
      }
      if i.Value? {
        KeyChecks(js, row, "skill_id");
        if i.token.kind == String { TextFault(t, i.token, ID_MAX); }
      }
    }
  }

  lemma ArrayInside(js: string, end: nat, tok: Token)
    requires end <= |js| && Checked(js[..end], tok) && tok.kind == Array
    ensures 0 <= tok.start < tok.end <= |js|
  {
  }

  /** Errors have negative codes, and a walk ends with one or with 0. */
  lemma {:induction false} ListPlausible(js: string, arr: Token, cursor: nat)
    requires arr.kind == Array && 0 <= arr.start < arr.end <= |js|
    ensures var l := ListFrom(js, arr, cursor);
            l.end <= 0 && forall i :: 0 <= i < |l.rows| && l.rows[i].Failed? ==> l.rows[i].code < 0
    decreases arr.end - cursor
  {
    hide ScanNext, RowOf;
    var next := ScanNext(js, arr, cursor);
    if next.Element? {
      NextChecks(js, arr, cursor);
      ListPlausible(js, arr, next.cursor);
      RowFailure(js, next.token);
    }
  }

  // ------------------------------------------------------------------------------- the program

  /** Copies a string into a buffer of `room` bytes and compares it. */
  method TextIs(t: string, tok: Token, room: nat, word: string) returns (rc: int, same: bool)
    requires Checked(t, tok) && tok.kind == String && room > 0
    ensures match TextOf(t, tok, room)
            case Fault(code) => rc == code < 0
            case Text(s) => rc == |s| && same == (UpToZero(s) == word)
  {
    hide StringEnd, Unescape, UpToZero;
    TextFault(t, tok, room);
    var buffer := new char[room];
    rc := UnescapeAt(t, tok.start, tok.end, buffer);
    same := rc >= 0 && UpToZero(buffer[..rc]) == word;
  }

  method SessionAt(js: string, row: Token) returns (r: Rule)
    requires row.kind == Object && 0 <= row.start < row.end <= |js|
    ensures r == SessionRule(js, row)
  {
    hide ScanKey, TextOf, UpToZero, Checked;
    var t := js[..row.end];
    var found, v := ScanKeyAt(js, row, "session_id");
    if found != OK {
      return Holds;
    }
    KeyChecks(js, row, "session_id");
    if v.kind != String {
      SpanInside(t, v);
      return if v.kind == Primitive && v.end - v.start == 4 && t[v.start..v.end] == "null" then Holds else Fails;
    }
    TextFault(t, v, 8);
    var n, same := TextIs(t, v, 8, "default");
    return if n == ERR_NOMEM then Fails else if n < 0 then Stops(n) else if n != 0 && !same then Fails else Holds;
  }

  lemma SpanInside(t: string, tok: Token)
    requires Checked(t, tok)
    ensures 0 <= tok.start <= tok.end <= |t|
  {
  }

  method CapableAt(js: string, row: Token) returns (r: Rule)
    requires row.kind == Object && 0 <= row.start < row.end <= |js|
    ensures r == CapableRule(js, row)
  {
    hide ScanKey, ScanNext, TextOf, UpToZero, Checked;
    var found, arr := ScanKeyAt(js, row, "capabilities");
    if found != OK || arr.kind != Array {
      return Fails;
    }
    KeyChecks(js, row, "capabilities");
    ArrayInside(js, row.end, arr);
    var cursor: nat := 0;
    while true
      invariant CapableFrom(js, arr, cursor) == CapableFrom(js, arr, 0)
      decreases arr.end - cursor
    {
      var rc, item, next := ScanNextAt(js, arr, cursor);
      if rc != 1 {
        return if rc < 0 then Stops(rc) else Fails;
      }
      NextChecks(js, arr, cursor);
      cursor := next;
      if item.kind == String {
        TextFault(js[..arr.end], item, 9);
        var n, same := TextIs(js[..arr.end], item, 9, "fallback");
        if n >= 0 && same {
          return Holds;
        }
        if n < 0 && n != ERR_NOMEM {
          return Stops(n);
        }
      }
    }
  }

  method RowAt(js: string, row: Token) returns (r: Row)
    requires 0 <= row.start <= row.end <= |js| && (row.kind == Object ==> row.start < row.end)
    ensures r == RowOf(js, row)
  {
    hide ScanKey, SessionRule, CapableRule, TextOf, Unescape, StringEnd, Trim, UpToZero, Checked;
    if row.kind != Object {
      return Passed;
    }
    var session := SessionAt(js, row);
    if !session.Holds? {
      return if session.Stops? then Failed(session.code) else Passed;
    }
    var capable := CapableAt(js, row);
    if !capable.Holds? {
      return if capable.Stops? then Failed(capable.code) else Passed;
    }
    r := IdAt(js, row);
  }

  method IdAt(js: string, row: Token) returns (r: Row)
    requires row.kind == Object && 0 <= row.start < row.end <= |js|
    ensures r == IdOf(js, row)
  {
    hide ScanKey, Unescape, StringEnd, Trim, UpToZero;
    var found, v := ScanKeyAt(js, row, "skill_id");
    if found != OK || v.kind != String {
      return Passed;
    }
    KeyChecks(js, row, "skill_id");
    TextFault(js[..row.end], v, ID_MAX);
    var id := new char[ID_MAX];
    var n := UnescapeAt(js[..row.end], v.start, v.end, id);
    if n < 0 {
      return Failed(n);
    }
    n := TrimInPlace(id, n);
    return if n > 0 then Id(UpToZero(id[..n])) else Passed;
  }
}
