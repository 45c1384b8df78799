/** When a row of the hub's list names a fallback skill, and what the list comes to, in any text, step by step. */
module SkillSteps {
  import opened Status
  import opened Blanks
  import opened JsonTree
  import opened JsonEscape
  import opened JsonIterate
  import opened SkillRows

  /** The string token decodes, within a buffer of this many bytes, to a text that ends like this at its first zero byte. */
  ghost predicate Reads(t: string, v: Token, room: nat, s: string) {
    Checked(t, v) && v.kind == String && Unescape(t, v.start, v.end, room) == Text(s)
  }

  /** Whatever session the row names is none or the default one; a row that cannot be looked through names none. */
  ghost predicate AnySession(js: string, row: Token)
    requires row.kind == Object && 0 <= row.start < row.end <= |js|
  {
    forall v :: ScanKey(js, row, "session_id") == Value(v) ==>
      || (exists s :: Reads(js[..row.end], v, 8, s) && (s == "" || UpToZero(s) == "default"))
      || (v.kind == Primitive && 0 <= v.start <= v.end <= row.end && js[..row.end][v.start..v.end] == "null")
  }

  lemma SessionIff(js: string, row: Token)
    requires row.kind == Object && 0 <= row.start < row.end <= |js|
    ensures SessionRule(js, row).Holds? <==> AnySession(js, row)
  {
    hide ScanKey, Checked, Unescape, UpToZero;
    var r := ScanKey(js, row, "session_id");
    if r.Value? {
      KeyChecks(js, row, "session_id");
      Inside(js[..row.end], r.token);
    }
  }

  lemma Inside(t: string, v: Token)
    requires Checked(t, v)
    ensures 0 <= v.start <= v.end <= |t|
  {
    hide UpToZero;
  }

  /** Cursors and elements of so many steps in a row. */
  ghost predicate StepsTo(js: string, arr: Token, cursors: seq<nat>, items: seq<Token>)
    requires arr.kind == Array && 0 <= arr.start < arr.end <= |js|
  {
    |cursors| == |items| + 1 && forall k :: 0 <= k < |items| ==> ScanNext(js, arr, cursors[k]) == Element(items[k], cursors[k + 1])
  }

  /** This element is passed over: no string, one too long, or another text than the one looked for. */
  ghost predicate PassesOver(t: string, item: Token) {
    || item.kind != String
    || (Checked(t, item) && Unescape(t, item.start, item.end, 9) == Fault(ERR_NOMEM))
    || exists s :: Reads(t, item, 9, s) && UpToZero(s) != "fallback"
  }

  /** After some steps over other elements comes one that says "fallback". */
  ghost predicate SaysFallback(js: string, arr: Token, cursor: nat, cursors: seq<nat>, items: seq<Token>)
    requires arr.kind == Array && 0 <= arr.start < arr.end <= |js|
  {
    && items != [] && StepsTo(js, arr, cursors, items) && cursors[0] == cursor
    && (forall k :: 0 <= k < |items| - 1 ==> PassesOver(js[..arr.end], items[k]))
    && exists s :: Reads(js[..arr.end], items[|items| - 1], 9, s) && UpToZero(s) == "fallback"
  }

  lemma TokenTurn(js: string, arr: Token, cursor: nat)
    requires arr.kind == Array && 0 <= arr.start < arr.end <= |js| && ScanNext(js, arr, cursor).Element?
    ensures var n, t := ScanNext(js, arr, cursor), js[..arr.end];
            && Checked(t, n.token) && cursor < n.cursor <= arr.end
            && ((exists s :: Reads(t, n.token, 9, s) && UpToZero(s) == "fallback") ==> CapableFrom(js, arr, cursor) == Holds)
            && (PassesOver(t, n.token) ==> CapableFrom(js, arr, cursor) == CapableFrom(js, arr, n.cursor))
            && (CapableFrom(js, arr, cursor) == Holds ==>
                  (exists s :: Reads(t, n.token, 9, s) && UpToZero(s) == "fallback") || PassesOver(t, n.token))
  {
    hide ScanNext, Checked, Unescape, UpToZero;
    NextChecks(js, arr, cursor);
  }

  lemma {:induction false} StepsFind(js: string, arr: Token, cursor: nat, cursors: seq<nat>, items: seq<Token>)
    requires arr.kind == Array && 0 <= arr.start < arr.end <= |js| && SaysFallback(js, arr, cursor, cursors, items)
    ensures CapableFrom(js, arr, cursor) == Holds
    decreases |items|
  {
    hide ScanNext, Reads, UpToZero, CapableFrom, PassesOver;
    assert ScanNext(js, arr, cursors[0]) == Element(items[0], cursors[1]);
    TokenTurn(js, arr, cursor);
    if |items| > 1 {
      assert items[1..][|items| - 2] == items[|items| - 1];
      assert forall k :: 0 <= k < |items| - 1 ==> items[1..][k] == items[k + 1];
      assert forall k :: 0 <= k < |items| ==> cursors[1..][k] == cursors[k + 1];
      StepsFind(js, arr, cursors[1], cursors[1..], items[1..]);
    }
  }

  lemma {:induction false} FoundBySteps(js: string, arr: Token, cursor: nat) returns (cursors: seq<nat>, items: seq<Token>)
    requires arr.kind == Array && 0 <= arr.start < arr.end <= |js| && CapableFrom(js, arr, cursor) == Holds
    ensures SaysFallback(js, arr, cursor, cursors, items)
    decreases arr.end - cursor
  {
    hide ScanNext, Reads, UpToZero, CapableFrom, PassesOver;
    OnlyElements(js, arr, cursor);
    TokenTurn(js, arr, cursor);
    var n := ScanNext(js, arr, cursor);
    if exists s :: Reads(js[..arr.end], n.token, 9, s) && UpToZero(s) == "fallback" {
      cursors, items := [cursor, n.cursor], [n.token];
    } else {
      var more, rest := FoundBySteps(js, arr, n.cursor);
      cursors, items := [cursor] + more, [n.token] + rest;
      assert forall k :: 1 <= k < |items| ==> items[k] == rest[k - 1];
      assert forall k :: 1 <= k < |cursors| ==> cursors[k] == more[k - 1];
    }
  }

  lemma OnlyElements(js: string, arr: Token, cursor: nat)
    requires arr.kind == Array && 0 <= arr.start < arr.end <= |js| && CapableFrom(js, arr, cursor) == Holds
    ensures ScanNext(js, arr, cursor).Element?
  {
    hide ScanNext, Unescape, UpToZero, Checked;
  }

  /** The list of capabilities can be read as far as a string "fallback". */
  ghost predicate Capable(js: string, row: Token)
    requires row.kind == Object && 0 <= row.start < row.end <= |js|
  {
    exists v, cursors, items ::
      && ScanKey(js, row, "capabilities") == Value(v) && v.kind == Array && 0 <= v.start < v.end <= |js|
      && SaysFallback(js, v, 0, cursors, items)
  }

  lemma CapableIff(js: string, row: Token)
    requires row.kind == Object && 0 <= row.start < row.end <= |js|
    ensures CapableRule(js, row) == Holds <==> Capable(js, row)
  {
    hide ScanKey, Checked, CapableFrom, SaysFallback;
    var r := ScanKey(js, row, "capabilities");
    if r.Value? {
      KeyChecks(js, row, "capabilities");
      Inside(js[..row.end], r.token);
      if r.token.kind == Array {
        NotEmpty(js[..row.end], r.token);
        if CapableFrom(js, r.token, 0) == Holds {
          var cursors, items := FoundBySteps(js, r.token, 0);
        }
        forall cursors, items | SaysFallback(js, r.token, 0, cursors, items)
          ensures CapableFrom(js, r.token, 0) == Holds
        {
          StepsFind(js, r.token, 0, cursors, items);
        }
      }
    }
  }

  lemma NotEmpty(t: string, v: Token)
    requires Checked(t, v) && v.kind == Array
    ensures 0 <= v.start < v.end <= |t|
  {
    hide UpToZero;
  }

  /** The row names this id: up to a zero byte, what is left of its text without the blanks around it. */
  ghost predicate NamesId(js: string, row: Token, id: string)
    requires row.kind == Object && 0 <= row.start < row.end <= |js|
  {
    exists v, s :: ScanKey(js, row, "skill_id") == Value(v) && Reads(js[..row.end], v, 64, s) && Trim(s) != "" && id == UpToZero(Trim(s))
  }

  lemma IdIff(js: string, row: Token, id: string)
    requires row.kind == Object && 0 <= row.start < row.end <= |js|
    ensures IdOf(js, row) == Id(id) <==> NamesId(js, row, id)
  {
    hide ScanKey, Checked, Unescape, UpToZero, Trim;
    var r := ScanKey(js, row, "skill_id");
    if r.Value? {
      KeyChecks(js, row, "skill_id");
    }
  }

  /** A row of any text gives an id exactly when it is an object of the default session with the capability and that id. */
  lemma RowIff(js: string, row: Token, id: string)
    requires 0 <= row.start <= row.end <= |js| && (row.kind == Object ==> row.start < row.end)
    ensures RowOf(js, row) == Id(id) <==> row.kind == Object && AnySession(js, row) && Capable(js, row) && NamesId(js, row, id)
  {
    hide SessionRule, CapableRule, IdOf, AnySession, Capable, NamesId;
    if row.kind == Object {
      SessionIff(js, row);
      CapableIff(js, row);
      IdIff(js, row, id);
    }
  }

  /** The list is walked element by element, and ends at its closing bracket or where the scanner gives up. */
  lemma {:induction false} ListIs(js: string, arr: Token, cursor: nat) returns (cursors: seq<nat>, items: seq<Token>)
    requires arr.kind == Array && 0 <= arr.start < arr.end <= |js|
    ensures StepsTo(js, arr, cursors, items) && cursors[0] == cursor
    ensures var l, last := ListFrom(js, arr, cursor), ScanNext(js, arr, cursors[|items|]);
            && |l.rows| == |items| && (forall k :: 0 <= k < |items| ==> RowIs(js, items[k], l.rows[k]))
            && (if l.end == 0 then last.Finished? else l.end == ERR_JSON && last.Broken?)
    decreases arr.end - cursor
  {
    hide ScanNext, RowOf;
    var n := ScanNext(js, arr, cursor);
    if n.Element? {
      NextChecks(js, arr, cursor);
      Inside(js[..arr.end], n.token);
      var more, rest := ListIs(js, arr, n.cursor);
      cursors, items := [cursor] + more, [n.token] + rest;
      assert forall k :: 1 <= k < |items| ==> items[k] == rest[k - 1];
      assert forall k :: 1 <= k < |cursors| ==> cursors[k] == more[k - 1];
    } else {
      cursors, items := [cursor], [];
    }
  }

  ghost predicate RowIs(js: string, item: Token, row: Row) {
    0 <= item.start <= item.end <= |js| && (item.kind == Object ==> item.start < item.end) && row == RowOf(js, item)
  }
}
