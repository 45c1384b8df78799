/** What the hub's list says, read off the tree the tokenizer builds: which ids are those of fallback skills. */
module SkillTree {
  import opened Blanks
  import opened Status
  import opened JsonText
  import opened JsonTree
  import opened JsonScan
  import opened JsonTokens
  import opened JsonAgree
  import opened JsonIterate
  import opened JsonEscape
  import opened JsonMeaning
  import opened SkillRows
  import Walks = JsonWalks
  import Fallbacks

  // ------------------------------------------------------------------------------- what the tree says

  ghost predicate DefaultSession(js: string, row: Node) {
    match MemberOf(js, row, "session_id")
    case NoChild => true
    case Child(v) => Says(js, v, "") || Says(js, v, "default") || SaysNull(js, v)
  }

  ghost predicate Lists(js: string, elements: seq<Node>, s: string) {
    exists k :: 0 <= k < |elements| && Says(js, elements[k], s)
  }

  ghost predicate IsFallback(js: string, row: Node) {
    match MemberOf(js, row, "capabilities")
    case NoChild => false
    case Child(v) => v.kind == Array && Lists(js, v.kids, "fallback")
  }

  /** The row counts as a fallback skill of the hub, and its id is this text. */
  ghost predicate Names(js: string, row: Node, s: string) {
    && row.kind == Object && DefaultSession(js, row) && IsFallback(js, row)
    && MemberOf(js, row, "skill_id").Child? && Says(js, MemberOf(js, row, "skill_id").value, s)
  }

  /** What a qualifying row with this id comes to: too long, blank, or delivered trimmed. */
  function Outcome(s: string): Row {
    if |s| >= 64 then Failed(ERR_NOMEM) else if Trim(s) == "" then Passed else Id(UpToZero(Trim(s)))
  }

  // ------------------------------------------------------------------------------------------- texts

  /** Decoding does not look behind the closing quote. */
  lemma {:induction false} UnescapeCut(t: string, l: nat, i: nat, end: nat, room: nat)
    requires i <= end < l <= |t| && StringEnd(t, i) == CloseAt(end) && StringEnd(t[..l], i) == CloseAt(end)
    ensures Unescape(t[..l], i, end, room) == Unescape(t, i, end, room)
    decreases end - i
  {
    hide DecodeStep, StringEnd;
    if i < end {
      StepCut(t, l, i, end);
      var step := DecodeStep(t, i, end);
      if step.Step? {
        StepStays(t, i, end);
        StepStays(t[..l], i, end);
        if |step.bytes| < room {
          UnescapeCut(t, l, step.next, end, room - |step.bytes|);
        }
      }
    }
  }

  lemma StepCut(t: string, l: nat, i: nat, end: nat)
    requires i < end < l <= |t| && StringEnd(t, i) == CloseAt(end) && StringEnd(t[..l], i) == CloseAt(end)
    ensures DecodeStep(t[..l], i, end) == DecodeStep(t, i, end)
  {
  }

  /** A string copied into a buffer, from a text cut off behind it: all of it, or nothing for want of room. */
  lemma TextInRow(js: string, l: nat, n: Node, room: nat) returns (s: string)
    requires '\0' !in js && Located(js, n) && n.kind == String && l <= |js| && Checked(js[..l], Shallow(n)) && room > 0
    ensures Says(js, n, s)
    ensures TextOf(js[..l], Shallow(n), room) == if |s| < room then Text(s) else Fault(ERR_NOMEM)
  {
    hide StringEnd, Unescape;
    LocatedString(js, n);
    UnescapeSucceedsIff(js, n.start, n.end, n.end - n.start + 1);
    s := Unescape(js, n.start, n.end, n.end - n.start + 1).bytes;
    UnescapeFitsIff(js, n.start, n.end, room);
    UnescapeCut(js, l, n.start, n.end, room);
  }

  /** In a buffer one byte longer than the word, only the word itself compares equal to it. */
  lemma OnlyTheWord(s: string, word: string)
    requires |s| <= |word|
    ensures UpToZero(s) == word ==> s == word
  {
    hide UpToZero;
    assert UpToZero(s) <= s;
  }

  lemma WordIsWhole(word: string)
    requires '\0' !in word
    ensures UpToZero(word) == word
  {
  }

  // ------------------------------------------------------------------------------------------- rows

  /** Scanning a row for a name finds the tree's member. */
  lemma MemberScans(js: string, row: Node, name: string)
    requires Placed(js, row) && row.kind == Object
    ensures 0 <= row.start < row.end <= |js|
    ensures match MemberOf(js, row, name)
            case NoChild => ScanKey(js, Shallow(row), name) == Missing
            case Child(v) =>
              ScanKey(js, Shallow(row), name) == Value(Shallow(v)) && Checked(js[..row.end], Shallow(v)) && Placed(js, v)
  {
    hide ScanKey, Located, Checked;
    Walks.ScanKeyFinds(js, row, name);
    var i := FirstNamed(js, row.kids, name);
    if i < |row.kids| {
      assert Placed(js, row.kids[i]) && Placed(js, row.kids[i].kids[0]);
      KeyChecks(js, Shallow(row), name);
    }
  }

  lemma SessionIs(js: string, row: Node)
    requires '\0' !in js && Placed(js, row) && row.kind == Object
    ensures 0 <= row.start < row.end <= |js|
    ensures SessionRule(js, Shallow(row)) == if DefaultSession(js, row) then Holds else Fails
  {
    hide ScanKey, Located, Says, TextOf, UpToZero, MemberOf, StringEnd;
    MemberScans(js, row, "session_id");
    var m := MemberOf(js, row, "session_id");
    if m.Child? {
      var v := m.value;
      if v.kind == String {
        var s := TextInRow(js, row.end, v, 8);
        SaysWhich(js, v, s);
        if |s| < 8 { OnlyTheWord(s, "default"); }
        WordIsWhole("default");
      } else {
        SaysNothing(js, v);
        assert js[..row.end][v.start..v.end] == js[v.start..v.end];
      }
    }
  }

  /** From a cursor that yields these elements, the search finds what is among them. */
  lemma {:induction false} CapableIs(js: string, arr: Token, cursor: nat, elements: seq<Node>)
    requires '\0' !in js && arr.kind == Array && 0 <= arr.start < arr.end <= |js| && cursor <= arr.end
    requires Walks.Yields(js, arr, cursor, elements) && forall k :: 0 <= k < |elements| ==> Located(js, elements[k])
    ensures CapableFrom(js, arr, cursor) == if Lists(js, elements, "fallback") then Holds else Fails
    decreases |elements|
  {
    hide ScanNext, Located, Says, TextOf, UpToZero, Checked, StringEnd;
    if elements != [] {
      var next := ScanNext(js, arr, cursor);
      NextChecks(js, arr, cursor);
      CapableIs(js, arr, next.cursor, elements[1..]);
      ListsCons(js, elements, "fallback");
      if elements[0].kind == String {
        var s := TextInRow(js, arr.end, elements[0], 9);
        SaysWhich(js, elements[0], s);
        if |s| < 9 { OnlyTheWord(s, "fallback"); }
        WordIsWhole("fallback");
      } else {
        SaysNothing(js, elements[0]);
      }
    }
  }

  lemma ListsCons(js: string, elements: seq<Node>, s: string)
    requires elements != []
    ensures Lists(js, elements, s) <==> Says(js, elements[0], s) || Lists(js, elements[1..], s)
  {
    hide Says;
    if Lists(js, elements, s) {
      var k :| 0 <= k < |elements| && Says(js, elements[k], s);
      if k > 0 { assert elements[1..][k - 1] == elements[k]; }
    }
    if Lists(js, elements[1..], s) {
      var k :| 0 <= k < |elements[1..]| && Says(js, elements[1..][k], s);
      assert elements[k + 1] == elements[1..][k];
    }
  }

  lemma CapabilityIs(js: string, row: Node)
    requires '\0' !in js && Placed(js, row) && row.kind == Object
    ensures 0 <= row.start < row.end <= |js|
    ensures CapableRule(js, Shallow(row)) == if IsFallback(js, row) then Holds else Fails
  {
    hide ScanKey, ScanNext, Located, Lists, MemberOf, CapableFrom, Checked, Walks.Yields;
    MemberScans(js, row, "capabilities");
    var m := MemberOf(js, row, "capabilities");
    if m.Child? && m.value.kind == Array {
      var v := m.value;
      Walks.ScanNextYields(js, v);
      assert forall k :: 0 <= k < |v.kids| ==> Placed(js, v.kids[k]);
      CapableIs(js, Shallow(v), 0, v.kids);
    }
  }

  lemma IdIs(js: string, row: Node)
    requires '\0' !in js && Placed(js, row) && row.kind == Object
    ensures 0 <= row.start < row.end <= |js|
    ensures var m := MemberOf(js, row, "skill_id");
            && (m.NoChild? || m.value.kind != String ==> IdOf(js, Shallow(row)) == Passed)
            && (m.Child? && m.value.kind == String ==>
                 exists s :: Says(js, m.value, s) && IdOf(js, Shallow(row)) == Outcome(s))
  {
    hide ScanKey, Located, Says, TextOf, UpToZero, MemberOf, Trim, StringEnd;
    MemberScans(js, row, "skill_id");
    var m := MemberOf(js, row, "skill_id");
    if m.Child? && m.value.kind == String {
      var s := TextInRow(js, row.end, m.value, ID_MAX);
      assert IdOf(js, Shallow(row)) == Outcome(s);
    }
  }

  lemma RowFits(js: string, row: Node)
    requires Located(js, row)
    ensures 0 <= row.start <= row.end <= |js| && (row.kind == Object ==> row.start < row.end)
  {
    LocatedScans(js, row);
    ScanChecks(js, RawStart(row));
  }

  /** A row comes to nothing, unless it counts as a fallback skill; then it comes to what its id does. */
  lemma RowMeans(js: string, row: Node)
    requires '\0' !in js && Placed(js, row)
    ensures 0 <= row.start <= row.end <= |js| && (row.kind == Object ==> row.start < row.end)
    ensures (forall s :: !Names(js, row, s)) ==> RowOf(js, Shallow(row)) == Passed
    ensures forall s :: Names(js, row, s) ==> RowOf(js, Shallow(row)) == Outcome(s)
  {
    hide Located, Says, MemberOf, IdOf, SessionRule, CapableRule, Outcome, IsFallback, DefaultSession;
    RowFits(js, row);
    if row.kind == Object {
      SessionIs(js, row);
      CapabilityIs(js, row);
      IdIs(js, row);
      var m := MemberOf(js, row, "skill_id");
      if m.Child? {
        if m.value.kind == String {
          var s :| Says(js, m.value, s) && IdOf(js, Shallow(row)) == Outcome(s);
          SaysWhich(js, m.value, s);
          assert DefaultSession(js, row) && IsFallback(js, row) ==> Names(js, row, s);
        } else {
          SaysNothing(js, m.value);
        }
      }
    }
  }

  // ------------------------------------------------------------------------------------------- lists

  /** The rows of a parsed list are what its elements come to, in order. */
  lemma {:induction false} RowsAre(js: string, cursor: nat, elements: seq<Node>)
    requires js != "" && cursor <= |js| && Walks.Yields(js, Whole(js), cursor, elements)
    requires forall k :: 0 <= k < |elements| ==> Located(js, elements[k])
    ensures var l := ListFrom(js, Whole(js), cursor);
            && l.end == 0 && |l.rows| == |elements|
            && forall k :: 0 <= k < |elements| ==>
                 0 <= elements[k].start <= elements[k].end <= |js|
                 && (elements[k].kind == Object ==> elements[k].start < elements[k].end)
                 && l.rows[k] == RowOf(js, Shallow(elements[k]))
    decreases |elements|
  {
    hide ScanNext, Located, RowOf, Checked;
    if elements != [] {
      var next := ScanNext(js, Whole(js), cursor);
      NextChecks(js, Whole(js), cursor);
      RowsAre(js, next.cursor, elements[1..]);
      forall k | 0 <= k < |elements|
        ensures 0 <= elements[k].start <= elements[k].end <= |js|
                && (elements[k].kind == Object ==> elements[k].start < elements[k].end)
      {
        RowFits(js, elements[k]);
      }
      assert forall k :: 1 <= k < |elements| ==> elements[k] == elements[1..][k - 1];
    }
  }

  lemma ListRows(js: string, room: nat, root: Node)
    requires ParseDocument(js, room) == Accepted(root) && root.kind == Array && root.start == 0 && root.end == |js|
    ensures Placed(js, root) && js != ""
    ensures var l := ListOf(js);
            && l.end == 0 && |l.rows| == |root.kids|
            && forall k :: 0 <= k < |root.kids| ==>
                 var n := root.kids[k];
                 0 <= n.start <= n.end <= |js| && (n.kind == Object ==> n.start < n.end) && l.rows[k] == RowOf(js, Shallow(n))
  {
    hide ScanNext, ParseValue, RowOf, ListFrom, Located;
    ValuePlaces(js, 0, 0, room);
    Walks.ScanNextYields(js, root);
    assert forall k :: 0 <= k < |root.kids| ==> Placed(js, root.kids[k]);
    SizeIgnored(js, 0, root.kids, |root.kids|);
    RowsAre(js, 0, root.kids);
  }

  /** Stepping through a list does not look at its count. */
  lemma {:induction false} SizeIgnored(js: string, cursor: nat, elements: seq<Node>, n: nat)
    requires js != "" && cursor <= |js| && Walks.Yields(js, Token(Array, 0, |js|, n, -1), cursor, elements)
    ensures Walks.Yields(js, Whole(js), cursor, elements)
    decreases |elements|
  {
    NextIgnores(js, cursor, n);
    var next := ScanNext(js, Whole(js), cursor);
    if elements != [] {
      SizeIgnored(js, next.cursor, elements[1..], n);
    } else {
      NextIgnores(js, next.cursor, n);
    }
  }

  lemma NextIgnores(js: string, cursor: nat, n: nat)
    requires js != ""
    ensures ScanNext(js, Whole(js), cursor) == ScanNext(js, Token(Array, 0, |js|, n, -1), cursor)
  {
  }

  /** The id a qualifying row is delivered under. */
  ghost predicate Yields(js: string, row: Node, id: string) {
    exists s :: Names(js, row, s) && |s| < 64 && Trim(s) != "" && id == UpToZero(Trim(s))
  }

  /**
   * The ids to deliver from a list the tokenizer accepts are exactly those of its fallback skills; there is an error
   * exactly when one of these has an id too long for its buffer.
   */
  lemma IdsAre(js: string, room: nat, root: Node)
    requires '\0' !in js
    requires ParseDocument(js, room) == Accepted(root) && root.kind == Array && root.start == 0 && root.end == |js|
    ensures var l := ListOf(js);
            && (forall id :: id in Fallbacks.Ids(l.rows) <==> exists k :: 0 <= k < |root.kids| && Yields(js, root.kids[k], id))
            && (if exists k, s :: 0 <= k < |root.kids| && Names(js, root.kids[k], s) && |s| >= ID_MAX
                then Fallbacks.Trouble(l.rows, l.end) == ERR_NOMEM else Fallbacks.Trouble(l.rows, l.end) == 0)
  {
    hide ListOf, ParseDocument, RowOf, Names, Trim, UpToZero;
    ListRows(js, room, root);
    var rows := ListOf(js).rows;
    forall k | 0 <= k < |rows|
      ensures rows[k].Failed? <==> exists s :: Names(js, root.kids[k], s) && |s| >= ID_MAX
      ensures rows[k].Failed? ==> rows[k].code == ERR_NOMEM
      ensures forall id :: rows[k] == Id(id) <==> Yields(js, root.kids[k], id)
    {
      RowMeans(js, root.kids[k]);
      NamesOne(js, root.kids[k]);
    }
    TroubleIs(rows);
    IdsInRows(rows);
  }

  /** An id that would fit once trimmed, and the row is refused nevertheless. */
  lemma PaddedIdRefused(js: string, row: Node)
    requires '\0' !in js && Placed(js, row) && Names(js, row, seq(63, _ => ' ') + "a")
    ensures 0 <= row.start <= row.end <= |js| && row.kind == Object && row.start < row.end
    ensures RowOf(js, Shallow(row)) == Failed(ERR_NOMEM) && Trim(seq(63, _ => ' ') + "a") == "a"
  {
    hide RowOf, Says, MemberOf, DefaultSession, IsFallback;
    RowMeans(js, row);
    var s := seq(63, _ => ' ') + "a";
    TrimIs(s, 63, 64);
    assert s[63..64] == "a";
  }

  lemma NamesOne(js: string, row: Node)
    ensures forall a, b :: Names(js, row, a) && Names(js, row, b) ==> a == b
  {
    hide Unescape, StringEnd, MemberOf, DefaultSession, IsFallback;
  }

  lemma {:induction false} TroubleIs(rows: seq<Row>)
    requires forall k :: 0 <= k < |rows| && rows[k].Failed? ==> rows[k].code == ERR_NOMEM
    ensures Fallbacks.Trouble(rows, 0) == if exists k :: 0 <= k < |rows| && rows[k].Failed? then ERR_NOMEM else 0
  {
    if rows != [] && !rows[0].Failed? {
      TroubleIs(rows[1..]);
      assert forall k :: 1 <= k < |rows| ==> rows[k] == rows[1..][k - 1];
      if k :| 0 <= k < |rows| && rows[k].Failed? {
        assert rows[1..][k - 1].Failed?;
      }
    }
  }

  lemma IdsInRows(rows: seq<Row>)
    ensures forall id :: id in Fallbacks.Ids(rows) <==> exists k :: 0 <= k < |rows| && rows[k] == Id(id)
  {
    forall id | exists k :: 0 <= k < |rows| && rows[k] == Id(id)
      ensures id in Fallbacks.Ids(rows)
    {
      var k :| 0 <= k < |rows| && rows[k] == Id(id);
      assert rows[k].Id? && rows[k].id == id;
    }
  }
}
