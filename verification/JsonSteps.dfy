/** What looking up a name and stepping through an array come to on any text, well-formed or not. */
module JsonSteps {
  import opened JsonText
  import opened JsonGrammar
  import opened JsonTree
  import opened JsonTokens
  import opened JsonScan
  import opened JsonIterate
  import opened JsonBalance

  /** A member: where the comma before it, its key and its colon stand, and where its value ends. */
  datatype Member = Member(comma: nat, at: nat, key: Token, colon: nat, value: Token, end: nat)

  ghost predicate MemberAt(t: string, m: Member) {
    && m.key.kind == String && 0 <= m.key.end && ValueAt(t, m.at, m.key, m.key.end + 1)
    && Begins(t, m.key.end + 1, m.colon) && t[m.colon] == ':' && ScannedAt(t, m.colon + 1, m.value, m.end)
  }

  /** Behind white space from `start` on stands this value. */
  ghost predicate ScannedAt(t: string, start: nat, token: Token, next: nat) {
    start <= |t| && exists i :: Begins(t, start, i) && ValueAt(t, i, token, next)
  }

  /** Members one behind the other, commas between them, and a closing brace as the last character of the text. */
  ghost predicate MembersFrom(t: string, i: nat, first: bool, ms: seq<Member>)
    decreases |ms|
  {
    if ms == [] then t != "" && Begins(t, i, |t| - 1) && t[|t| - 1] == '}'
    else
      && (if first then Begins(t, i, ms[0].at)
          else Begins(t, i, ms[0].comma) && t[ms[0].comma] == ',' && Begins(t, ms[0].comma + 1, ms[0].at))
      && MemberAt(t, ms[0]) && MembersFrom(t, ms[0].end, false, ms[1..])
  }

  /** The value of the first member with the name. */
  function FirstMatch(t: string, ms: seq<Member>, name: string): Found {
    if ms == [] then Missing
    else if Named(t, ms[0].key, name) then Value(ms[0].value)
    else FirstMatch(t, ms[1..], name)
  }

  lemma ScannedIff(t: string, start: nat, token: Token, next: nat)
    ensures ScannedAt(t, start, token, next) <==> start <= |t| && Scan(t, start) == Seen(token, next)
  {
    hide ValueAt, Begins, Scan;
    if start <= |t| {
      ScanIff(t, start, token, next);
    }
  }

  /** A value scanned from its own first byte. */
  lemma ScannedHere(t: string, i: nat, token: Token, next: nat)
    requires i < |t| && !IsWhite(t[i])
    ensures ValueAt(t, i, token, next) <==> Scan(t, i) == Seen(token, next)
  {
    hide ValueAt, Scan;
    ScanIff(t, i, token, next);
    assert Begins(t, i, i);
  }

  /** A string scanned from its quote. */
  lemma KeyScans(t: string, i: nat)
    requires i < |t| && t[i] == '"' && Scan(t, i).Seen?
    ensures var r := Scan(t, i); r.token.kind == String && 0 <= r.token.end && r.next == r.token.end + 1 <= |t|
  {
  }

  lemma KeyStarts(t: string, i: nat, key: Token, next: nat)
    requires ValueAt(t, i, key, next) && key.kind == String
    ensures t[i] == '"' && i < next <= |t|
  {
    hide IsBody;
  }

  /** One member, scanned: its key, its colon and its value. */
  lemma MemberScans(t: string, m: Member)
    requires MemberAt(t, m)
    ensures m.at < |t| && t[m.at] == '"' && 0 <= m.key.end < |t| && Scan(t, m.at) == Seen(m.key, m.key.end + 1)
    ensures m.colon == SkipSpace(t, m.key.end + 1) < |t| && t[m.colon] == ':' && Scan(t, m.colon + 1) == Seen(m.value, m.end)
  {
    hide ValueAt, Begins, Scan, SkipSpace, ScannedAt;
    KeyStarts(t, m.at, m.key, m.key.end + 1);
    ScannedHere(t, m.at, m.key, m.key.end + 1);
    BeginsIff(t, m.key.end + 1, m.colon);
    ScannedIff(t, m.colon + 1, m.value, m.end);
  }

  lemma ScansMember(t: string, comma: nat, at: nat) returns (m: Member)
    requires at < |t| && t[at] == '"' && Scan(t, at).Seen? && Scan(t, at).next <= |t|
    requires var j := SkipSpace(t, Scan(t, at).next); j < |t| && t[j] == ':' && Scan(t, j + 1).Seen?
    ensures MemberAt(t, m) && m.comma == comma && m.at == at
    ensures m.key == Scan(t, at).token && Scan(t, at).next == m.key.end + 1
    ensures var j := SkipSpace(t, Scan(t, at).next); m.value == Scan(t, j + 1).token && m.end == Scan(t, j + 1).next
  {
    hide ValueAt, Begins, Scan, SkipSpace, ScannedAt;
    KeyScans(t, at);
    var key, e := Scan(t, at).token, Scan(t, at).next;
    var j := SkipSpace(t, e);
    m := Member(comma, at, key, j, Scan(t, j + 1).token, Scan(t, j + 1).next);
    ScannedHere(t, at, key, e);
    BeginsIff(t, e, j);
    ScannedIff(t, j + 1, m.value, m.end);
  }

  /** The turn of a lookup that goes over one member. */
  lemma MemberTurn(t: string, i: nat, first: bool, m: Member, found: Found, name: string)
    requires i <= |t| && MemberAt(t, m) && m.end <= |t|
    requires if first then Begins(t, i, m.at) else Begins(t, i, m.comma) && t[m.comma] == ',' && Begins(t, m.comma + 1, m.at)
    ensures ScanMembers(t, i, first, found, name)
         == ScanMembers(t, m.end, false, if found.Missing? && Named(t, m.key, name) then Value(m.value) else found, name)
  {
    hide ValueAt, Begins, Scan, SkipSpace, MemberAt, Named, ScanMembers;
    MemberScans(t, m);
    MemberUnfolds(t, m, found, name);
    if first {
      BeginsIff(t, i, m.at);
      FirstTurn(t, i, m.at, found, name);
    } else {
      BeginsIff(t, i, m.comma);
      BeginsIff(t, m.comma + 1, m.at);
      LaterTurn(t, i, m.comma, m.at, found, name);
    }
  }

  lemma MemberUnfolds(t: string, m: Member, found: Found, name: string)
    requires m.at < |t| && t[m.at] == '"' && 0 <= m.key.end < |t| && Scan(t, m.at) == Seen(m.key, m.key.end + 1) && m.end <= |t|
    requires m.colon == SkipSpace(t, m.key.end + 1) < |t| && t[m.colon] == ':' && Scan(t, m.colon + 1) == Seen(m.value, m.end)
    ensures ScanMember(t, m.at, found, name)
         == ScanMembers(t, m.end, false, if found.Missing? && Named(t, m.key, name) then Value(m.value) else found, name)
  {
    hide Scan, SkipSpace, Named, ScanMembers;
  }

  lemma FirstTurn(t: string, i: nat, at: nat, found: Found, name: string)
    requires i <= |t| && at == SkipSpace(t, i) < |t| && t[at] == '"'
    ensures ScanMembers(t, i, true, found, name) == ScanMember(t, at, found, name)
  {
    hide ScanMember, SkipSpace;
  }

  lemma LaterTurn(t: string, i: nat, comma: nat, at: nat, found: Found, name: string)
    requires i <= |t| && comma == SkipSpace(t, i) < |t| && t[comma] == ',' && at == SkipSpace(t, comma + 1) < |t|
    ensures ScanMembers(t, i, false, found, name) == ScanMember(t, at, found, name)
  {
    hide ScanMember, SkipSpace;
  }

  /** Members that stand in a row are scanned, and the first with the name counts. */
  lemma {:induction false} MembersScan(t: string, i: nat, first: bool, ms: seq<Member>, found: Found, name: string)
    requires i <= |t| && MembersFrom(t, i, first, ms) && !found.Malformed?
    ensures ScanMembers(t, i, first, found, name) == if found.Missing? then FirstMatch(t, ms, name) else found
    decreases |ms|
  {
    hide ValueAt, Begins, Scan, SkipSpace, MemberAt, Named, ScanMember;
    if ms == [] {
      BeginsIff(t, i, |t| - 1);
    } else {
      hide ScanMembers;
      var m := ms[0];
      MemberScans(t, m);
      MemberEnds(t, m);
      MemberTurn(t, i, first, m, found, name);
      MembersScan(t, m.end, false, ms[1..], if found.Missing? && Named(t, m.key, name) then Value(m.value) else found, name);
    }
  }

  lemma MemberEnds(t: string, m: Member)
    requires m.colon < |t| && Scan(t, m.colon + 1) == Seen(m.value, m.end)
    ensures m.end <= |t|
  {
  }

  /** A lookup that comes through has gone over members in a row. */
  lemma {:induction false} MembersOf(t: string, i: nat, first: bool, found: Found, name: string) returns (ms: seq<Member>)
    requires i <= |t| && !ScanMembers(t, i, first, found, name).Malformed?
    ensures MembersFrom(t, i, first, ms)
    decreases |t| - i
  {
    hide ValueAt, Begins, Scan, SkipSpace, MemberAt, Named;
    var j := SkipSpace(t, i);
    BeginsIff(t, i, j);
    if t[j] == '}' {
      ms := [];
    } else {
      var at := if first then j else SkipSpace(t, j + 1);
      if !first {
        BeginsIff(t, j + 1, at);
      }
      var m := ScansMember(t, j, at);
      var rest := MembersOf(t, m.end, false, if found.Missing? && Named(t, m.key, name) then Value(m.value) else found, name);
      ms := [m] + rest;
      assert ms[1..] == rest;
    }
  }

  /**
   * A lookup by scanning comes through exactly on members in a row between the braces, and gives the value of the first
   * one with the name.
   */
  lemma ScanKeyIff(js: string, obj: Token, name: string, r: Found)
    requires obj.kind == Object && 0 <= obj.start < obj.end <= |js| && !r.Malformed?
    ensures var t := js[..obj.end];
            ScanKey(js, obj, name) == r <==> exists ms :: MembersFrom(t, obj.start + 1, true, ms) && r == FirstMatch(t, ms, name)
  {
    hide MembersFrom, ScanMembers, FirstMatch;
    var t := js[..obj.end];
    if ScanKey(js, obj, name) == r {
      var ms := MembersOf(t, obj.start + 1, true, Missing, name);
      MembersScan(t, obj.start + 1, true, ms, Missing, name);
    }
    forall ms | MembersFrom(t, obj.start + 1, true, ms) && r == FirstMatch(t, ms, name)
      ensures ScanKey(js, obj, name) == r
    {
      MembersScan(t, obj.start + 1, true, ms, Missing, name);
    }
  }

  // ------------------------------------------------------------------------------------- elements

  /** An element from `at` on, which must not be a comma or a closing bracket. */
  ghost predicate ElementAt(t: string, at: nat, token: Token, next: nat) {
    at < |t| && t[at] != ',' && t[at] != ']' && ValueAt(t, at, token, next)
  }

  /** An element where the list begins. */
  ghost predicate FirstElement(t: string, from: nat, token: Token, next: nat) {
    exists at: nat :: Begins(t, from, at) && t[at] != ']' && ValueAt(t, at, token, next)
  }

  /** An element behind a comma. */
  ghost predicate LaterElement(t: string, from: nat, token: Token, next: nat) {
    exists comma: nat, at: nat :: Begins(t, from, comma) && t[comma] == ',' && Begins(t, comma + 1, at) && ElementAt(t, at, token, next)
  }

  lemma FirstElementIff(t: string, from: nat, token: Token, next: nat)
    ensures FirstElement(t, from, token, next) <==>
            from <= |t| && var i := SkipSpace(t, from); i < |t| && t[i] != ']' && ScanElement(t, i) == Element(token, next)
  {
    hide ValueAt, Begins, Scan, SkipSpace;
    BeginsOnly(t, from);
    if from <= |t| && SkipSpace(t, from) < |t| {
      var i := SkipSpace(t, from);
      BeginsWhite(t, from, i);
      ScannedHere(t, i, token, next);
      assert Begins(t, from, i);
    }
  }

  lemma LaterElementIff(t: string, from: nat, token: Token, next: nat)
    ensures LaterElement(t, from, token, next) <==>
            && from <= |t|
            && var i := SkipSpace(t, from);
               && i < |t| && t[i] == ','
               && var j := SkipSpace(t, i + 1);
                  j < |t| && t[j] != ']' && t[j] != ',' && ScanElement(t, j) == Element(token, next)
  {
    hide ValueAt, Begins, Scan, SkipSpace;
    BeginsOnly(t, from);
    if from <= |t| && SkipSpace(t, from) < |t| && t[SkipSpace(t, from)] == ',' {
      var i := SkipSpace(t, from);
      BeginsOnly(t, i + 1);
      var j := SkipSpace(t, i + 1);
      if j < |t| {
        BeginsWhite(t, i + 1, j);
        ScannedHere(t, j, token, next);
        assert Begins(t, from, i) && Begins(t, i + 1, j);
        assert ElementAt(t, j, token, next) <==> t[j] != ']' && t[j] != ',' && ScanElement(t, j) == Element(token, next);
      }
    }
  }

  /**
   * A step gives an element exactly when one stands where the list begins, or behind a comma. It says that the list is over
   * exactly when the next thing is its closing bracket, and stays there.
   */
  lemma ScanNextIff(js: string, arr: Token, cursor: nat, token: Token, next: nat)
    requires arr.kind == Array && 0 <= arr.start < arr.end <= |js|
    ensures var t := js[..arr.end];
            && (ScanNext(js, arr, cursor) == Element(token, next) <==>
                  if cursor == 0 then FirstElement(t, arr.start + 1, token, next) else LaterElement(t, cursor, token, next))
            && (ScanNext(js, arr, cursor) == Finished(next) <==>
                  Begins(t, if cursor == 0 then arr.start + 1 else cursor, next) && t[next] == ']')
  {
    hide FirstElement, LaterElement, Begins, ScanElement, SkipSpace;
    var t, from := js[..arr.end], if cursor == 0 then arr.start + 1 else cursor;
    FirstElementIff(t, from, token, next);
    LaterElementIff(t, from, token, next);
    BeginsOnly(t, from);
    if from <= |t| && SkipSpace(t, from) < |t| {
      NeverFinished(t, SkipSpace(t, from));
      if t[SkipSpace(t, from)] == ',' {
        NeverFinished(t, SkipSpace(t, SkipSpace(t, from) + 1));
      }
    }
  }

  lemma NeverFinished(t: string, i: nat)
    requires i <= |t|
    ensures !ScanElement(t, i).Finished?
  {
  }

  lemma BeginsOnly(t: string, start: nat)
    ensures forall k: nat :: Begins(t, start, k) <==> start <= |t| && k < |t| && k == SkipSpace(t, start)
  {
    hide SkipSpace, Begins;
    forall k: nat
      ensures Begins(t, start, k) <==> start <= |t| && k < |t| && k == SkipSpace(t, start)
    {
      if start <= |t| {
        BeginsIff(t, start, k);
      } else {
        BeginsNowhere(t, start);
      }
    }
  }

  lemma BeginsWhite(t: string, start: nat, i: nat)
    requires Begins(t, start, i)
    ensures i < |t| && !IsWhite(t[i])
  {
  }

  lemma BeginsNowhere(t: string, start: nat)
    requires start > |t|
    ensures forall i :: !Begins(t, start, i)
  {
  }
}
