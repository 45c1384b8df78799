/**
 * Delivering the hub's fallback skills sorted and without repetition, in memory for two ids: each pass over the rows
 * finds the smallest id above the one delivered before it.
 */
module Fallbacks {
  import opened Status
  import opened JsonTree
  import opened JsonIterate
  import opened SkillRows

  /** Byte order, a proper prefix first. */
  predicate Less(a: string, b: string) {
    b != [] && (a == [] || a[0] < b[0] || (a[0] == b[0] && Less(a[1..], b[1..])))
  }

  lemma {:induction false} LessTotal(a: string, b: string)
    ensures a == b || Less(a, b) || Less(b, a)
    ensures !Less(a, a) && !(Less(a, b) && Less(b, a))
  {
    if a != [] && b != [] {
      LessTotal(a[1..], b[1..]);
      assert a[0] == b[0] && a[1..] == b[1..] ==> a == [a[0]] + a[1..] == b;
    }
    if a != [] {
      LessTotal(a[1..], a[1..]);
    }
  }

  lemma {:induction false} LessTransitive(a: string, b: string, c: string)
    requires Less(a, b) && Less(b, c)
    ensures Less(a, c)
  {
    if a != [] && a[0] == b[0] == c[0] {
      LessTransitive(a[1..], b[1..], c[1..]);
    }
  }

  /** At offset k the texts differ for the first time, the first having the smaller byte there or none. */
  predicate Splits(a: string, b: string, k: int) {
    0 <= k <= |a| && k < |b| && a[..k] == b[..k] && (k == |a| || a[k] < b[k])
  }

  lemma SameStart(a: string, b: string, k: int)
    requires 0 < k <= |a| && k <= |b| && a[..k] == b[..k]
    ensures a[0] == b[0]
  {
    assert a[..k][0] == a[0] && b[..k][0] == b[0];
  }

  /** The order is by the first byte that differs, a proper prefix before the longer text. */
  lemma {:induction false} LessIff(a: string, b: string)
    ensures Less(a, b) <==> exists k :: Splits(a, b, k)
  {
    if a == [] || b == [] || a[0] != b[0] {
      assert Less(a, b) ==> Splits(a, b, 0);
      forall k | Splits(a, b, k)
        ensures k == 0
      {
        if k > 0 {
          SameStart(a, b, k);
        }
      }
    } else {
      LessIff(a[1..], b[1..]);
      forall k | Splits(a[1..], b[1..], k)
        ensures Splits(a, b, k + 1)
      {
        assert a[..k + 1] == [a[0]] + a[1..][..k] && b[..k + 1] == [b[0]] + b[1..][..k];
      }
      forall k | Splits(a, b, k)
        ensures k > 0 && Splits(a[1..], b[1..], k - 1)
      {
        assert a[1..][..k - 1] == a[..k][1..] && b[1..][..k - 1] == b[..k][1..];
      }
    }
  }

  function Ids(rows: seq<Row>): set<string> {
    set i | 0 <= i < |rows| && rows[i].Id? :: rows[i].id
  }

  /** The error of the first row that has one, else how the walk over the rows ended: 0, or an error. */
  function Trouble(rows: seq<Row>, end: int): int {
    if rows == [] then end
    else if rows[0].Failed? then rows[0].code
    else Trouble(rows[1..], end)
  }

  predicate Sorted(ids: seq<string>) {
    forall i, j :: 0 <= i < j < |ids| ==> Less(ids[i], ids[j])
  }

  /** The ids beyond the last one delivered. */
  function Remaining(ids: set<string>, delivered: seq<string>): set<string> {
    if delivered == [] then ids else set s | s in ids && Less(delivered[|delivered| - 1], s)
  }

  /** `delivered` is the beginning of the sorted list of ids. */
  ghost predicate Smallest(ids: set<string>, delivered: seq<string>) {
    && Sorted(delivered)
    && (forall s :: s in delivered ==> s in ids)
    && (forall s :: s in ids ==> s in delivered || s in Remaining(ids, delivered))
  }

  // ------------------------------------------------------------------------------- one pass

  datatype Candidate = NoneYet | Best(id: string)

  /** The smallest of the remaining ids. */
  ghost predicate Least(ids: set<string>, delivered: seq<string>, c: Candidate) {
    match c
    case NoneYet => Remaining(ids, delivered) == {}
    case Best(id) =>
      id in Remaining(ids, delivered) && forall s :: s in Remaining(ids, delivered) ==> s == id || Less(id, s)
  }

  lemma {:induction false} TroubleFrom(rows: seq<Row>, end: int, i: nat)
    requires i <= |rows| && forall k :: 0 <= k < i ==> !rows[k].Failed?
    ensures Trouble(rows, end) == Trouble(rows[i..], end)
    decreases i
  {
    if i == 0 {
      assert rows[0..] == rows;
    } else {
      TroubleFrom(rows, end, i - 1);
      assert rows[i - 1..][1..] == rows[i..];
    }
  }

  /** A row joins those seen. */
  lemma LeastNext(rows: seq<Row>, i: nat, delivered: seq<string>, c: Candidate, c': Candidate)
    requires i < |rows| && Least(Ids(rows[..i]), delivered, c) && c' == Improved(rows[i], delivered, c)
    ensures Least(Ids(rows[..i + 1]), delivered, c')
  {
    var before, after := Ids(rows[..i]), Ids(rows[..i + 1]);
    forall s
      ensures s in after <==> s in before || (rows[i].Id? && s == rows[i].id)
    {
      assert s in before ==> exists k :: 0 <= k < i && rows[..i][k].Id? && rows[..i][k].id == s;
      if s in before {
        var k :| 0 <= k < i && rows[..i][k].Id? && rows[..i][k].id == s;
        assert rows[..i + 1][k].id == s;
      }
      assert rows[..i + 1][i] == rows[i];
      if s in after {
        var k :| 0 <= k < i + 1 && rows[..i + 1][k].Id? && rows[..i + 1][k].id == s;
        assert k < i ==> rows[..i][k].id == s;
      }
    }
    var had, have := Remaining(before, delivered), Remaining(after, delivered);
    assert forall s :: s in have ==> s in had || (rows[i].Id? && s == rows[i].id);
    assert forall s :: s in had ==> s in have;
    if c.Best? && c'.Best? {
      LessTotal(c.id, c'.id);
      forall s | s in Remaining(after, delivered)
        ensures s == c'.id || Less(c'.id, s)
      {
        LessTotal(s, c'.id);
        if s in Remaining(before, delivered) && c' != c && s != c.id {
          LessTransitive(c'.id, c.id, s);
        }
        if rows[i].Id? && s == rows[i].id && c' == c {
          LessTotal(s, c.id);
        }
      }
    }
  }

  datatype Pass = Halted(code: int) | Done(candidate: Candidate)

  /** One row more has been read: the list is the rows seen, this one, and those behind it. */
  ghost predicate Reading(js: string, cursor: nat, seen: seq<Row>) {
    js != "" && var rest := ListFrom(js, Whole(js), cursor); ListOf(js) == Listing(seen + rest.rows, rest.end)
  }

  lemma ReadingStarts(js: string)
    requires js != ""
    ensures Reading(js, 0, [])
  {
    hide ListFrom;
    assert [] + ListFrom(js, Whole(js), 0).rows == ListFrom(js, Whole(js), 0).rows;
  }

  lemma TokenFits(js: string, row: Token)
    requires Checked(js, row)
    ensures 0 <= row.start <= row.end <= |js| && (row.kind == Object ==> row.start < row.end)
  {
  }

  /** Reading a row, or coming to the end. */
  lemma ReadingGoesOn(js: string, cursor: nat, seen: seq<Row>)
    requires Reading(js, cursor, seen)
    ensures match ScanNext(js, Whole(js), cursor)
            case Broken => ListOf(js) == Listing(seen, ERR_JSON)
            case Finished(_) => ListOf(js) == Listing(seen, 0)
            case Element(row, next) =>
              && Checked(js, row) && cursor < next <= |js|
              && Reading(js, next, seen + [RowOf(js, row)]) && |seen| < |ListOf(js).rows| && ListOf(js).rows[|seen|] == RowOf(js, row)
  {
    hide ScanNext, RowOf, Checked, ListOf;
    var arr := Whole(js);
    assert seen + [] == seen;
    assert js[..|js|] == js;
    if ScanNext(js, arr, cursor).Element? {
      NextChecks(js, arr, cursor);
      var next := ScanNext(js, arr, cursor);
      TokenFits(js, next.token);
      var rest := ListFrom(js, arr, next.cursor);
      Joined(seen, RowOf(js, next.token), rest.rows);
    }
  }

  lemma Joined(a: seq<Row>, r: Row, b: seq<Row>)
    ensures a + ([r] + b) == (a + [r]) + b
  {
  }

  /** What one row does to the candidate; the program's comparison is !(id <= last), which for two texts is last < id. */
  function Improved(row: Row, delivered: seq<string>, c: Candidate): Candidate {
    if !row.Id? || (delivered != [] && !Less(delivered[|delivered| - 1], row.id)) then c
    else if c == NoneYet || Less(row.id, c.id) then Best(row.id) else c
  }

  lemma TroubleAt(rows: seq<Row>, end: int, i: nat)
    requires i <= |rows| && (forall k :: 0 <= k < i ==> !rows[k].Failed?)
    ensures i == |rows| ==> Trouble(rows, end) == end
    ensures i < |rows| && rows[i].Failed? ==> Trouble(rows, end) == rows[i].code
  {
    TroubleFrom(rows, end, i);
  }

  /** Walks the list once. */
  method FindNext(js: string, ghost delivered: seq<string>, haveLast: bool, last: string) returns (p: Pass)
    requires haveLast == (delivered != []) && (haveLast ==> last == delivered[|delivered| - 1])
    ensures p.Halted? <==> Trouble(ListOf(js).rows, ListOf(js).end) < 0
    ensures p.Halted? ==> p.code == Trouble(ListOf(js).rows, ListOf(js).end)
    ensures p.Done? ==> Least(Ids(ListOf(js).rows), delivered, p.candidate)
  {
    hide ScanNext, RowOf, ListFrom, ListOf, Reading, Checked, Least, Trouble, Less;
    if js == "" {
      EmptyList(js);
      return Halted(ERR_INVALID);
    }
    ghost var rows, end, seen := ListOf(js).rows, ListOf(js).end, [];
    Plausible(js);
    ReadingStarts(js);
    NoRows(delivered);
    var next := NoneYet;
    var cursor: nat := 0;
    while true
      invariant Reading(js, cursor, seen) && |seen| <= |rows| && seen == rows[..|seen|]
      invariant (forall k :: 0 <= k < |seen| ==> !rows[k].Failed?) && Least(Ids(seen), delivered, next)
      decreases |js| - cursor
    {
      ReadingGoesOn(js, cursor, seen);
      TroubleAt(rows, end, |seen|);
      var rc, row, at := ScanNextAt(js, Whole(js), cursor);
      if rc != 1 {
        return if rc < 0 then Halted(rc) else Done(next);
      }
      TokenFits(js, row);
      var v := RowAt(js, row);
      if v.Failed? {
        return Halted(v.code);
      }
      LeastNext(rows, |seen|, delivered, next, Improved(v, delivered, next));
      seen, cursor := seen + [v], at;
      if v.Id? && !(haveLast && !Less(last, v.id)) && (next == NoneYet || Less(v.id, next.id)) {
        next := Best(v.id);
      }
    }
  }

  lemma EmptyList(js: string)
    requires js == ""
    ensures Trouble(ListOf(js).rows, ListOf(js).end) == ERR_INVALID
  {
  }

  lemma NoRows(delivered: seq<string>)
    ensures Least(Ids([]), delivered, NoneYet)
  {
  }

  lemma Plausible(js: string)
    ensures var l := ListOf(js); l.end <= 0 && forall i :: 0 <= i < |l.rows| && l.rows[i].Failed? ==> l.rows[i].code < 0
  {
    hide ListFrom;
    if js != "" { ListPlausible(js, Whole(js), 0); }
  }

  lemma SmallestNext(ids: set<string>, delivered: seq<string>, id: string)
    requires Smallest(ids, delivered) && Least(ids, delivered, Best(id))
    ensures Smallest(ids, delivered + [id])
    ensures Remaining(ids, delivered + [id]) < Remaining(ids, delivered)
  {
    var after := delivered + [id];
    forall i, j | 0 <= i < j < |after|
      ensures Less(after[i], after[j])
    {
      if j == |delivered| && i < j - 1 {
        LessTransitive(delivered[i], delivered[j - 1], id);
      }
    }
    LessTotal(id, id);
    assert id in Remaining(ids, delivered) && id !in Remaining(ids, after);
    forall s | s in Remaining(ids, after)
      ensures s in Remaining(ids, delivered)
    {
      if delivered != [] {
        LessTransitive(delivered[|delivered| - 1], id, s);
      }
    }
    assert after[|delivered|] == id;
    forall s | s in ids
      ensures s in after || s in Remaining(ids, after)
    {
      if s in delivered {
        var k :| 0 <= k < |delivered| && delivered[k] == s;
        assert after[k] == s;
      }
    }
  }

  // ------------------------------------------------------------------------------- all passes

  /** The caller has asked to stop after some delivery, and only the last one. */
  ghost predicate StoppedAt(more: seq<string> -> bool, delivered: seq<string>) {
    delivered != [] && !more(delivered) && WantedBefore(more, delivered)
  }

  ghost predicate WantedBefore(more: seq<string> -> bool, delivered: seq<string>) {
    forall k :: 0 < k < |delivered| ==> more(delivered[..k])
  }

  /**
   * Delivers the ids of the list in order, each once. `more` is the caller's answer after each delivery. An error is
   * only possible before the first delivery, and the count delivered is returned otherwise.
   */
  method Deliver(js: string, more: seq<string> -> bool) returns (rc: int, delivered: seq<string>)
    ensures var l := ListOf(js); var trouble := Trouble(l.rows, l.end);
            if trouble < 0 then rc == trouble && delivered == []
            else && rc == |delivered| && Smallest(Ids(l.rows), delivered)
                 && (StoppedAt(more, delivered) || (Remaining(Ids(l.rows), delivered) == {} && WantedBefore(more, delivered)))
  {
    hide ListOf, Less;
    delivered := [];
    var haveLast, last := false, "";
    ghost var ids, trouble := Ids(ListOf(js).rows), Trouble(ListOf(js).rows, ListOf(js).end);
    while true
      invariant haveLast == (delivered != []) && (haveLast ==> last == delivered[|delivered| - 1])
      invariant haveLast ==> trouble >= 0 && more(delivered)
      invariant Smallest(ids, delivered) && WantedBefore(more, delivered)
      decreases |Remaining(ids, delivered)|
    {
      var p := FindNext(js, delivered, haveLast, last);
      match p
      case Halted(code) =>
        return code, delivered;
      case Done(NoneYet) =>
        return |delivered|, delivered;
      case Done(Best(id)) =>
        SmallestNext(ids, delivered, id);
        Shrinks(Remaining(ids, delivered + [id]), Remaining(ids, delivered));
        ghost var before := delivered;
        delivered := delivered + [id];
        assert forall k :: 0 < k < |before| ==> delivered[..k] == before[..k];
        assert before != [] ==> delivered[..|before|] == before;
        haveLast, last := true, id;
        if !more(delivered) {
          return |delivered|, delivered;
        }
    }
  }

  lemma Shrinks(a: set<string>, b: set<string>)
    requires a < b
    ensures |a| < |b|
  {
    assert b == a + (b - a);
    assert |b| == |a| + |b - a|;
    assert b - a != {};
  }

  /** What is delivered when the caller never stops: every id, in order, and no other sequence would do. */
  lemma {:induction false} DeliveredUnique(ids: set<string>, a: seq<string>, b: seq<string>)
    requires Smallest(ids, a) && Smallest(ids, b) && Remaining(ids, a) == {} == Remaining(ids, b)
    ensures a == b
  {
    SortedUnique(a, b);
  }

  lemma {:induction false} SortedUnique(a: seq<string>, b: seq<string>)
    requires Sorted(a) && Sorted(b) && (forall s :: s in a <==> s in b)
    ensures a == b
  {
    if a == [] {
      if b != [] {
        FirstIn(b);
        assert false;
      }
    } else {
      assert a[0] in b && b != [] && b[0] in a;
      SameFirst(a, b);
      forall s
        ensures s in a[1..] <==> s in b[1..]
      {
        LessTotal(a[0], a[0]);
        TailIn(a, s);
        TailIn(b, s);
      }
      SortedUnique(a[1..], b[1..]);
      assert a == [a[0]] + a[1..] && b == [b[0]] + b[1..];
    }
  }

  lemma FirstIn(b: seq<string>)
    requires b != []
    ensures b[0] in b
  {
  }

  lemma SameFirst(a: seq<string>, b: seq<string>)
    requires Sorted(a) && Sorted(b) && a != [] && b != [] && a[0] in b && b[0] in a
    ensures a[0] == b[0]
  {
    var i :| 0 <= i < |b| && b[i] == a[0];
    var j :| 0 <= j < |a| && a[j] == b[0];
    LessTotal(a[0], b[0]);
  }

  /** In a sorted list the tail holds every member but the first. */
  lemma TailIn(a: seq<string>, s: string)
    requires Sorted(a) && a != []
    ensures s in a[1..] <==> s in a && s != a[0]
  {
    if s in a[1..] {
      var k :| 0 <= k < |a[1..]| && a[1..][k] == s;
      assert a[k + 1] == s;
      LessTotal(a[0], s);
    }
    if s in a && s != a[0] {
      var k :| 0 <= k < |a| && a[k] == s;
      assert a[1..][k - 1] == s;
    }
  }
}
