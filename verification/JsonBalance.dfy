/** What the shallow scanner takes for a value in any text, well-formed or not: brackets in balance, strings and words. */
module JsonBalance {
  import opened JsonText
  import opened JsonGrammar
  import opened JsonTree
  import opened JsonScan

  // ------------------------------------------------------------------------------------- in balance

  /** A string literal, or one character that is no quote. */
  ghost predicate IsPart(u: string) {
    (|u| == 1 && u[0] != '"') || (|u| >= 2 && exists body :: IsBody(body) && u == "\"" + body + "\"")
  }

  /** How far a part takes the nesting up or down. */
  function Delta(u: string): int {
    if |u| != 1 then 0
    else if u[0] == '{' || u[0] == '[' then 1
    else if u[0] == '}' || u[0] == ']' then -1
    else 0
  }

  predicate IsComma(u: string) {
    |u| == 1 && u[0] == ','
  }

  /** From depth d the parts close every bracket, the last of them with its last character and not before. */
  ghost predicate Balanced(d: int, us: seq<string>, close: char)
    decreases |us|
  {
    us != [] && IsPart(us[0]) && d >= 1 &&
    if |us| == 1 then d == 1 && us[0] == [close] else d + Delta(us[0]) >= 1 && Balanced(d + Delta(us[0]), us[1..], close)
  }

  /** The commas at depth 1. */
  function Commas(d: int, us: seq<string>): nat
    decreases |us|
  {
    if us == [] then 0 else (if d == 1 && IsComma(us[0]) then 1 else 0) + Commas(d + Delta(us[0]), us[1..])
  }

  /** Something is there besides white space and commas: a string, a bracket, or at depth 1 another character. */
  predicate Shows(d: int, us: seq<string>)
    decreases |us|
  {
    us != [] && (Content(d, us[0]) || Shows(d + Delta(us[0]), us[1..]))
  }

  predicate Content(d: int, u: string) {
    |u| != 1 || Delta(u) > 0
    || (d == 1 && Delta(u) == 0 && u[0] != ',' && u[0] != ' ' && u[0] != '\t' && u[0] != '\n' && u[0] != '\r')
  }

  /** The count reported: elements between commas, none if nothing shows. */
  function Count(us: seq<string>): nat
    requires us != []
  {
    var inner := us[..|us| - 1];
    if Shows(1, inner) then Commas(1, inner) + 1 else 0
  }

  /** Between opening bracket and `end` the text is these parts. */
  ghost predicate Encloses(t: string, i: nat, end: nat, close: char, us: seq<string>) {
    us != [] && i <= end <= |t| && Balanced(1, us, close) && t[i..end] == Concat(us)
  }

  // --------------------------------------------------------------------------------------- the walk

  /** What a walk comes to after a character that is no quote. */
  lemma WalkByte(t: string, i: nat, close: char, d: nat, commas: nat, empty: bool, u: string)
    requires i < |t| && u == [t[i]] && t[i] != '"' && d >= 1
    ensures d + Delta(u) >= 1 ==>
              Walk(t, i, close, d, commas, empty)
              == Walk(t, i + 1, close, d + Delta(u), commas + (if d == 1 && IsComma(u) then 1 else 0), empty && !Content(d, u))
    ensures d == 1 && Delta(u) < 0 ==>
              Walk(t, i, close, d, commas, empty) == if t[i] == close then Closed(i + 1, if empty then 0 else commas + 1) else Stray
  {
  }

  lemma SamePlace(t: string, i: nat, u: string, k: nat)
    requires i + |u| <= |t| && t[i..i + |u|] == u && k < |u|
    ensures t[i + k] == u[k]
  {
    assert t[i..i + |u|][k] == t[i + k];
  }

  lemma SliceOfSlice(t: string, i: nat, j: nat, a: nat, b: nat)
    requires i <= j <= |t| && a <= b <= j - i
    ensures t[i..j][a..b] == t[i + a..i + b]
  {
    assert forall k :: 0 <= k < b - a ==> t[i..j][a..b][k] == t[i + a..i + b][k];
  }

  lemma QuotedParts(body: string)
    ensures var u := "\"" + body + "\"";
            |u| == |body| + 2 && u[0] == '"' && u[1..|body| + 1] == body && u[|body| + 1] == '"'
  {
  }

  /** After a string literal. */
  lemma WalkString(t: string, i: nat, close: char, d: nat, commas: nat, empty: bool, u: string)
    requires IsPart(u) && |u| >= 2 && i + |u| <= |t| && t[i..i + |u|] == u && d >= 1
    ensures Walk(t, i, close, d, commas, empty) == Walk(t, i + |u|, close, d, commas, false)
  {
    hide IsBody;
    var body :| IsBody(body) && u == "\"" + body + "\"";
    var n := |body|;
    QuotedParts(body);
    SamePlace(t, i, u, 0);
    SamePlace(t, i, u, n + 1);
    SliceOfSlice(t, i, i + |u|, 1, n + 1);
    BodyCloses(t, i + 1, body);
  }

  /** What a walk comes to after a part. */
  lemma WalkPart(t: string, i: nat, close: char, d: nat, commas: nat, empty: bool, u: string)
    requires IsPart(u) && i + |u| <= |t| && t[i..i + |u|] == u && d >= 1 && (close == '}' || close == ']')
    ensures d + Delta(u) >= 1 ==>
              Walk(t, i, close, d, commas, empty)
              == Walk(t, i + |u|, close, d + Delta(u), commas + (if d == 1 && IsComma(u) then 1 else 0), empty && !Content(d, u))
    ensures d == 1 && u == [close] ==> Walk(t, i, close, d, commas, empty) == Closed(i + 1, if empty then 0 else commas + 1)
  {
    hide Walk, IsBody;
    assert t[i] == u[0];
    if |u| == 1 {
      assert u == [t[i]];
      WalkByte(t, i, close, d, commas, empty, u);
    } else {
      WalkString(t, i, close, d, commas, empty, u);
    }
  }

  /** Parts in balance, walked. */
  lemma {:induction false} WalkParts(t: string, i: nat, close: char, d: nat, commas: nat, empty: bool, us: seq<string>)
    requires i + |Concat(us)| <= |t| && t[i..i + |Concat(us)|] == Concat(us) && d >= 1 && Balanced(d, us, close)
    requires close == '}' || close == ']'
    ensures var inner := us[..|us| - 1];
            Walk(t, i, close, d, commas, empty)
            == Closed(i + |Concat(us)|, if empty && !Shows(d, inner) then 0 else commas + Commas(d, inner) + 1)
    decreases |us|
  {
    hide Walk, IsPart, Delta, Content;
    var u := us[0];
    FirstPart(t, i, us);
    WalkPart(t, i, close, d, commas, empty, u);
    if |us| > 1 {
      var e, more := empty && !Content(d, u), commas + if d == 1 && IsComma(u) then 1 else 0;
      WalkParts(t, i + |u|, close, d + Delta(u), more, e, us[1..]);
      assert us[..|us| - 1][1..] == us[1..][..|us| - 2];
    } else {
      OnePart(us);
    }
  }

  lemma OnePart(us: seq<string>)
    requires |us| == 1
    ensures Concat(us) == us[0]
  {
    assert Concat(us[1..]) == "";
  }

  lemma FirstPart(t: string, i: nat, us: seq<string>)
    requires us != [] && i + |Concat(us)| <= |t| && t[i..i + |Concat(us)|] == Concat(us)
    ensures var u := us[0];
            && Concat(us) == u + Concat(us[1..]) && t[i..i + |u|] == u
            && t[i + |u|..i + |u| + |Concat(us[1..])|] == Concat(us[1..])
  {
    var u, rest := us[0], Concat(us[1..]);
    assert t[i..i + |u|] == t[i..i + |u + rest|][..|u|];
    assert t[i + |u|..i + |u| + |rest|] == t[i..i + |u + rest|][|u|..];
  }

  /** A walk that closes has gone over parts in balance. */
  lemma {:induction false} PartsOf(t: string, i: nat, close: char, d: nat, commas: nat, empty: bool) returns (us: seq<string>)
    requires i <= |t| && d >= 1 && (close == '}' || close == ']') && Walk(t, i, close, d, commas, empty).Closed?
    ensures var end := Walk(t, i, close, d, commas, empty).end; Balanced(d, us, close) && t[i..end] == Concat(us)
    decreases |t| - i
  {
    hide Walk, IsPart, Delta, Content, IsBody;
    var n := NextPart(t, i, close, d, commas, empty);
    var u := t[i..i + n];
    WalkPart(t, i, close, d, commas, empty, u);
    var end := Walk(t, i, close, d, commas, empty).end;
    if d + Delta(u) >= 1 {
      var e, more := empty && !Content(d, u), commas + if d == 1 && IsComma(u) then 1 else 0;
      var rest := PartsOf(t, i + n, close, d + Delta(u), more, e);
      us := [u] + rest;
      assert us[1..] == rest && t[i..end] == u + t[i + n..end];
      NotEmpty(rest, d + Delta(u), close);
    } else {
      us := [u];
      OnePart(us);
    }
  }

  lemma NotEmpty(us: seq<string>, d: int, close: char)
    requires Balanced(d, us, close)
    ensures us != []
  {
  }

  /** The first part of a text whose walk closes. */
  lemma NextPart(t: string, i: nat, close: char, d: nat, commas: nat, empty: bool) returns (n: nat)
    requires i <= |t| && d >= 1 && (close == '}' || close == ']') && Walk(t, i, close, d, commas, empty).Closed?
    ensures 1 <= n && i + n <= |t| && IsPart(t[i..i + n])
    ensures d + Delta(t[i..i + n]) >= 1 || (d == 1 && t[i..i + n] == [close])
    ensures d + Delta(t[i..i + n]) < 1 ==> n == 1
  {
    hide IsBody;
    if t[i] == '"' {
      var e := StringEnd(t, i + 1).pos;
      n := e + 1 - i;
      var body := t[i + 1..e];
      ClosedIsBody(t, i + 1, e);
      assert t[i..i + n] == "\"" + body + "\"";
    } else {
      n := 1;
      assert t[i..i + n] == [t[i]];
    }
  }

  lemma ClosedIsBody(t: string, i: nat, e: nat)
    requires i <= e < |t| && StringEnd(t, i) == CloseAt(e)
    ensures IsBody(t[i..e])
  {
    var units := UnitsOf(t, i);
  }

  /** A container closes at `end` with this count exactly when what follows its bracket is parts in balance up to there. */
  lemma WalkIff(t: string, i: nat, close: char, end: nat, size: nat)
    requires i <= |t| && (close == '}' || close == ']')
    ensures Walk(t, i, close, 1, 0, true) == Closed(end, size) <==> exists us :: Encloses(t, i, end, close, us) && size == Count(us)
  {
    hide Walk, Balanced, Concat, Shows, Commas;
    if Walk(t, i, close, 1, 0, true) == Closed(end, size) {
      var us := PartsOf(t, i, close, 1, 0, true);
      NotEmpty(us, 1, close);
      WalkParts(t, i, close, 1, 0, true, us);
      assert Encloses(t, i, end, close, us) && size == Count(us);
    }
    forall us | Encloses(t, i, end, close, us) && size == Count(us)
      ensures Walk(t, i, close, 1, 0, true) == Closed(end, size)
    {
      WalkParts(t, i, close, 1, 0, true, us);
    }
  }

  lemma BodyCloses(t: string, i: nat, body: string)
    requires IsBody(body) && i + |body| < |t| && t[i..i + |body|] == body && t[i + |body|] == '"'
    ensures StringEnd(t, i) == CloseAt(i + |body|)
  {
    hide IsUnit;
    var units :| Written(units, body);
    UnitsClose(t, i, units);
  }

  // --------------------------------------------------------------------------------------- the value

  /** What may stand behind a word: nothing, white space, a comma or a closing bracket. */
  predicate EndsWord(t: string, e: nat)
    requires e <= |t|
  {
    e == |t| || t[e] == ' ' || t[e] == '\t' || t[e] == '\n' || t[e] == '\r' || t[e] == ',' || t[e] == ']' || t[e] == '}'
  }

  /** At offset i, up to `next`, stands a value with this kind, span and count. */
  ghost predicate ValueAt(t: string, i: nat, token: Token, next: nat) {
    && i < next <= |t| && token.parent == -1
    && match token.kind
       case String =>
         next >= i + 2 && token == Token(String, i + 1, next - 1, 0, -1)
         && t[i] == '"' && t[next - 1] == '"' && IsBody(t[i + 1..next - 1])
       case Primitive => token == Token(Primitive, i, next, 0, -1) && IsWord(t[i..next]) && EndsWord(t, next)
       case _ =>
         && t[i] == (if token.kind == Object then '{' else '[') && token.start == i && token.end == next
         && exists us :: Encloses(t, i + 1, next, if token.kind == Object then '}' else ']', us) && token.size == Count(us)
  }

  lemma FirstPlain(t: string, i: nat, next: nat)
    requires i < next <= |t| && IsWord(t[i..next])
    ensures Plain(t[i])
  {
    hide IsWord;
    WordStarts(t[i..next]);
    assert t[i..next][0] == t[i];
  }

  lemma StringIff(t: string, i: nat, token: Token, next: nat)
    requires i < |t| && t[i] == '"'
    ensures ValueAt(t, i, token, next) <==> StringEnd(t, i + 1).CloseAt? && var e := StringEnd(t, i + 1).pos;
              token == Token(String, i + 1, e, 0, -1) && next == e + 1
  {
    hide IsBody, StringEnd, IsWord, Encloses;
    if StringEnd(t, i + 1).CloseAt? {
      ClosedIsBody(t, i + 1, StringEnd(t, i + 1).pos);
    }
    if ValueAt(t, i, token, next) {
      if token.kind == String {
        BodyCloses(t, i + 1, t[i + 1..next - 1]);
      } else if token.kind == Primitive {
        FirstPlain(t, i, next);
      }
    }
  }

  predicate AllPlain(s: string) {
    forall k :: 0 <= k < |s| ==> Plain(s[k])
  }

  /** No word begins with a quote, a bracket or white space. */
  lemma WordStarts(s: string)
    ensures IsWord(s) ==> s != "" && AllPlain(s)
  {
    hide IsWord, Plain;
    WordIff(s);
    if IsWord(s) {
      PrimitiveIsPlain(s);
    }
  }

  lemma ContainerIff(t: string, i: nat, token: Token, next: nat)
    requires i < |t| && (t[i] == '{' || t[i] == '[')
    ensures ValueAt(t, i, token, next) <==>
            var w := Walk(t, i + 1, Closing(t[i] == '{'), 1, 0, true);
            && w.Closed? && next == w.end
            && token == Token(if t[i] == '{' then Object else Array, i, w.end, w.size, -1)
  {
    hide IsBody, Walk, IsWord, Count, Balanced, Concat;
    var close := Closing(t[i] == '{');
    if ValueAt(t, i, token, next) {
      if token.kind == Primitive {
        FirstPlain(t, i, next);
      } else if token.kind == String {
        assert false;
      } else {
        var us :| Encloses(t, i + 1, next, close, us) && token.size == Count(us);
        WalkIff(t, i + 1, close, next, token.size);
      }
    }
    var w := Walk(t, i + 1, close, 1, 0, true);
    if w.Closed? {
      WalkIff(t, i + 1, close, w.end, w.size);
    }
  }

  lemma WordIsPrimitive(t: string, i: nat, token: Token, next: nat)
    requires i < |t| && t[i] != '"' && t[i] != '{' && t[i] != '['
    ensures ValueAt(t, i, token, next) <==>
            var e := PrimitiveEnd(t, i); CheckPrimitive(t[i..e]) && next == e && token == Token(Primitive, i, e, 0, -1)
  {
    hide IsBody, IsWord, Encloses, Count, CheckPrimitive;
    var e := PrimitiveEnd(t, i);
    WordIff(t[i..e]);
    WordStarts(t[i..e]);
    if ValueAt(t, i, token, next) {
      WordStarts(t[i..next]);
      WordEnds(t, i, next);
    }
  }

  lemma {:induction false} WordEnds(t: string, i: nat, e: nat)
    requires i <= e <= |t| && AllPlain(t[i..e]) && EndsWord(t, e)
    ensures PrimitiveEnd(t, i) == e
    decreases e - i
  {
    if i < e {
      assert t[i..e][0] == t[i];
      assert t[i + 1..e] == t[i..e][1..];
      WordEnds(t, i + 1, e);
    }
  }

  predicate IsWhite(c: char) {
    c == ' ' || c == '\t' || c == '\n' || c == '\r'
  }

  /** i is the first offset from `start` on where no white space stands. */
  ghost predicate Begins(t: string, start: nat, i: nat) {
    start <= i < |t| && (forall k :: start <= k < i ==> IsWhite(t[k])) && !IsWhite(t[i])
  }

  lemma BeginsIff(t: string, start: nat, i: nat)
    requires start <= |t|
    ensures Begins(t, start, i) <==> i < |t| && i == SkipSpace(t, start)
  {
    var j := SkipSpace(t, start);
    if Begins(t, start, i) {
      assert !(j < i) && !(i < j);
    }
  }

  /** The scanner sees a value exactly where one stands behind white space, and the value it sees is that one. */
  lemma ScanIff(t: string, start: nat, token: Token, next: nat)
    requires start <= |t|
    ensures Scan(t, start) == Seen(token, next) <==> exists i :: Begins(t, start, i) && ValueAt(t, i, token, next)
  {
    hide ValueAt, Walk, StringEnd, CheckPrimitive, PrimitiveEnd, SkipSpace, Begins;
    var j := SkipSpace(t, start);
    if j < |t| {
      BeginsIff(t, start, j);
      if t[j] == '"' {
        StringIff(t, j, token, next);
      } else if t[j] == '{' || t[j] == '[' {
        ContainerIff(t, j, token, next);
      } else {
        WordIsPrimitive(t, j, token, next);
      }
    }
    forall i | Begins(t, start, i)
      ensures i == j < |t|
    {
      BeginsIff(t, start, i);
    }
  }
}
