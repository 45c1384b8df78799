/** What the steps of rendering a pattern find and leave, told without their loops. */
module Sentence {
  import opened Blanks
  import opened Speaking
  import PatternTree

  // ------------------------------------------------------------------------------------------ groups

  /** No closing bracket before `end` has an opening one before it. */
  ghost predicate NoneBefore(s: string, end: nat, o: char, c: char) {
    forall i, j :: 0 <= i < j < end <= |s| ==> !(s[i] == o && s[j] == c)
  }

  ghost predicate FirstGroup(s: string, a: nat, b: nat, o: char, c: char) {
    && a < b < |s| && s[a] == o && s[b] == c && NoneBefore(s, b, o, c)
    && forall k :: a < k < b ==> s[k] != o
  }

  lemma {:induction false} FindsFirst(s: string, i: nat, open: int, o: char, c: char)
    requires -1 <= open < i <= |s| && o != c && (open >= 0 ==> s[open] == o)
    requires (forall k :: open < k < i ==> s[k] != o) && NoneBefore(s, i, o, c)
    ensures match FindFrom(s, i, open, o, c)
            case NoGroup => NoneBefore(s, |s|, o, c)
            case Group(a, b) => FirstGroup(s, a, b, o, c)
    decreases |s| - i
  {
    if i < |s| {
      if s[i] == o {
        FindsFirst(s, i + 1, i, o, c);
      } else if s[i] != c || open < 0 {
        assert forall k :: 0 <= k < i && open < 0 ==> s[k] != o;
        FindsFirst(s, i + 1, open, o, c);
      }
    }
  }

  /** The group found is the first to close, from its innermost opening bracket; none is found only if none closes. */
  lemma GroupIff(s: string, o: char, c: char, a: nat, b: nat)
    requires o != c
    ensures Find(s, o, c) == Group(a, b) <==> FirstGroup(s, a, b, o, c)
    ensures Find(s, o, c) == NoGroup <==> NoneBefore(s, |s|, o, c)
  {
    if s == "" {
      assert Find(s, o, c) == NoGroup;
    } else {
      FindsFirst(s, 0, -1, o, c);
    }
    if FirstGroup(s, a, b, o, c) && Find(s, o, c).Group? {
      var g := Find(s, o, c);
      assert !(g.end < b) && !(b < g.end);
      assert !(g.start < a) && !(a < g.start);
    }
  }

  // ----------------------------------------------------------------------------------- alternatives

  /** The alternatives are the pieces between the bars. */
  lemma {:induction false} AlternativesJoin(s: string)
    ensures PatternTree.Bars(Alternatives(s)) == s
    ensures forall k :: 0 <= k < |Alternatives(s)| ==> '|' !in Alternatives(s)[k]
    decreases |s|
  {
    var i := BarAt(s, 0);
    if i < |s| {
      var rest := Alternatives(s[i + 1..]);
      AlternativesJoin(s[i + 1..]);
      assert Alternatives(s) == [s[..i]] + rest && ([s[..i]] + rest)[1..] == rest;
      assert s == s[..i] + "|" + s[i + 1..];
    }
  }

  /** Nothing but tab, line feed, vertical tab, form feed, carriage return and space. */
  predicate SaysNothing(s: string) {
    forall i :: 0 <= i < |s| ==> s[i] as int in [9, 10, 11, 12, 13, 32]
  }

  /** The part of a text between its first and its last character that is no blank. */
  predicate Trimmed(s: string, a: nat, b: nat) {
    && a < b <= |s| && SaysNothing(s[..a]) && SaysNothing(s[b..])
    && s[a] as int !in [9, 10, 11, 12, 13, 32] && s[b - 1] as int !in [9, 10, 11, 12, 13, 32]
  }

  /** No alternative says anything, or one does and the others, of which there are some, do not. */
  ghost predicate MayGo(alts: seq<string>) {
    || (forall i :: 0 <= i < |alts| ==> SaysNothing(alts[i]))
    || (|alts| > 1 && exists k :: 0 <= k < |alts| && !SaysNothing(alts[k]) && forall i :: 0 <= i < |alts| && i != k ==> SaysNothing(alts[i]))
  }

  lemma {:induction false} LeftEnd(s: string) returns (a: nat)
    ensures a <= |s| && TrimLeft(s) == s[a..] && SaysNothing(s[..a]) && (a < |s| ==> s[a] as int !in [9, 10, 11, 12, 13, 32])
  {
    if s != "" && IsBlank(s[0]) {
      a := LeftEnd(s[1..]);
      assert s[..a + 1] == [s[0]] + s[1..][..a];
      a := a + 1;
    } else {
      a := 0;
    }
  }

  lemma NothingSnoc(s: string, b: nat)
    requires b < |s| && SaysNothing(s[..|s| - 1][b..]) && IsBlank(s[|s| - 1])
    ensures SaysNothing(s[b..])
  {
    assert s[b..] == s[..|s| - 1][b..] + [s[|s| - 1]];
  }

  lemma {:induction false} RightEnd(s: string) returns (b: nat)
    ensures b <= |s| && TrimRight(s) == s[..b] && SaysNothing(s[b..]) && (b > 0 ==> s[b - 1] as int !in [9, 10, 11, 12, 13, 32])
    decreases |s|
  {
    hide SaysNothing;
    if s != "" && IsBlank(s[|s| - 1]) {
      var rest := s[..|s| - 1];
      b := RightEnd(rest);
      assert rest[..b] == s[..b];
      NothingSnoc(s, b);
    } else {
      b := |s|;
      NothingHere(s);
    }
  }

  lemma NothingHere(s: string)
    ensures SaysNothing(s[|s|..])
  {
  }

  /** Trimming leaves nothing of a text that says nothing, and else what stands between its ends. */
  lemma TrimFinds(s: string) returns (a: nat, b: nat)
    ensures if SaysNothing(s) then Trim(s) == "" else Trimmed(s, a, b) && Trim(s) == s[a..b]
  {
    hide TrimLeft, TrimRight;
    a := LeftEnd(s);
    var rest := s[a..];
    b := RightEnd(rest);
    assert forall k :: 0 <= k < |rest| ==> rest[k] == s[a + k];
    assert rest[..b] == s[a..a + b] && rest[b..] == s[a + b..];
    b := a + b;
  }

  lemma NothingIff(s: string)
    ensures SaysNothing(s) <==> Trim(s) == ""
  {
    hide Trim;
    var a, b := TrimFinds(s);
  }

  /** How many alternatives say something, and which comes first. */
  lemma {:induction false} RealIs(alts: seq<string>) returns (k: nat, a: nat, b: nat)
    ensures Real(alts) <= |alts| && (Real(alts) == 0 <==> forall i :: 0 <= i < |alts| ==> SaysNothing(alts[i]))
    ensures Real(alts) == 1 ==> forall i, j :: 0 <= i < j < |alts| ==> SaysNothing(alts[i]) || SaysNothing(alts[j])
    ensures Real(alts) > 1 ==> exists i, j :: 0 <= i < j < |alts| && !SaysNothing(alts[i]) && !SaysNothing(alts[j])
    ensures Real(alts) > 0 ==>
              k < |alts| && Trimmed(alts[k], a, b) && FirstReal(alts) == alts[k][a..b] && forall i :: 0 <= i < k ==> SaysNothing(alts[i])
  {
    hide SaysNothing, Trimmed, Trim;
    k, a, b := 0, 0, 0;
    if alts != [] {
      var rest := alts[1..];
      var l, c, d := RealIs(rest);
      NothingIff(alts[0]);
      assert forall i :: 1 <= i < |alts| ==> alts[i] == rest[i - 1];
      if SaysNothing(alts[0]) {
        k, a, b := l + 1, c, d;
        if Real(rest) > 1 {
          var i, j :| 0 <= i < j < |rest| && !SaysNothing(rest[i]) && !SaysNothing(rest[j]);
          assert alts[i + 1] == rest[i] && alts[j + 1] == rest[j];
        }
      } else {
        a, b := TrimFinds(alts[0]);
        if Real(rest) > 0 {
          assert !SaysNothing(alts[0]) && !SaysNothing(alts[l + 1]) by {
            WordedSpeaks(rest[l], c, d);
          }
        }
      }
    }
  }

  lemma WordedSpeaks(s: string, a: nat, b: nat)
    requires Trimmed(s, a, b)
    ensures !SaysNothing(s)
  {
    assert s[a] as int !in [9, 10, 11, 12, 13, 32];
  }

  /** A group stands for its first alternative that says something, trimmed, unless it may go. */
  lemma ChooseIs(alts: seq<string>) returns (k: nat, a: nat, b: nat)
    ensures if MayGo(alts) then Choose(alts) == ""
            else k < |alts| && Trimmed(alts[k], a, b) && Choose(alts) == alts[k][a..b] && forall i :: 0 <= i < k ==> SaysNothing(alts[i])
  {
    hide SaysNothing, Trimmed, Real, FirstReal;
    k, a, b := RealIs(alts);
    if Real(alts) == 1 {
      WordedSpeaks(alts[k], a, b);
    }
  }

  // ------------------------------------------------------------------------------------------- slots

  /** a to z, or an underscore, in ASCII. */
  predicate IsFirstLetter(c: char) {
    97 <= c as int <= 122 || c as int == 95
  }

  /** Or a digit. */
  predicate IsLetter(c: char) {
    IsFirstLetter(c) || 48 <= c as int <= 57
  }

  /** The text begins with a slot of this name. */
  ghost predicate BeginsWith(s: string, name: string) {
    && name != "" && IsFirstLetter(name[0]) && (forall i :: 0 <= i < |name| ==> IsLetter(name[i]))
    && "{" + name + "}" <= s
  }

  lemma {:induction false} NameEnds(s: string, i: nat, j: nat)
    requires i <= j <= |s| && (forall k :: i <= k < j ==> InName(s[k])) && (j < |s| ==> !InName(s[j]))
    ensures NameEnd(s, i) == j
    decreases j - i
  {
    if i < j {
      NameEnds(s, i + 1, j);
    }
  }

  lemma SlotFound(s: string, name: string)
    requires BeginsWith(s, name)
    ensures SlotLength(s) == |name| + 2
  {
    hide NameEnd;
    var slot := "{" + name + "}";
    assert slot[0] == '{' && slot[1] == name[0] && slot[|name| + 1] == '}' && s[..|slot|] == slot;
    assert forall k :: 1 <= k < |name| + 1 ==> s[k] == slot[k] == name[k - 1];
    NameEnds(s, 1, |name| + 1);
  }

  lemma SlotNamed(s: string)
    requires SlotLength(s) > 0
    ensures BeginsWith(s, s[1..SlotLength(s) - 1])
  {
  }

  /** A text begins with a slot exactly when a name in braces stands there. */
  lemma SlotIff(s: string, n: nat)
    requires n > 0
    ensures SlotLength(s) == n <==> exists name :: BeginsWith(s, name) && n == |name| + 2
  {
    hide SlotLength, BeginsWith;
    if SlotLength(s) == n {
      SlotNamed(s);
      NamedLength(s);
      assert BeginsWith(s, s[1..n - 1]);
    }
    if exists name :: BeginsWith(s, name) && n == |name| + 2 {
      var name :| BeginsWith(s, name) && n == |name| + 2;
      SlotFound(s, name);
    }
  }

  lemma NamedLength(s: string)
    requires SlotLength(s) > 0
    ensures 3 <= SlotLength(s) <= |s|
  {
  }

  /** A name stands for the first slot with this name, and for itself in words when there is none. */
  lemma {:induction false} FillingIs(slots: seq<Slot>, name: string)
    ensures (exists k :: FirstSlot(slots, name, k)) || (forall j :: 0 <= j < |slots| ==> slots[j].name != name)
    ensures forall k :: FirstSlot(slots, name, k) ==> Filling(slots, name) == slots[k].value
    ensures (forall j :: 0 <= j < |slots| ==> slots[j].name != name) ==>
              |Filling(slots, name)| == |name|
              && forall i :: 0 <= i < |name| ==> Filling(slots, name)[i] == if name[i] == '_' then ' ' else name[i]
  {
    if slots != [] {
      if slots[0].name == name {
        assert FirstSlot(slots, name, 0);
      } else {
        FillingIs(slots[1..], name);
        assert Filling(slots, name) == Filling(slots[1..], name);
        if k :| FirstSlot(slots[1..], name, k) {
          assert FirstSlot(slots, name, k + 1);
        }
        forall k | FirstSlot(slots, name, k)
          ensures FirstSlot(slots[1..], name, k - 1)
        {
        }
      }
    }
  }

  predicate FirstSlot(slots: seq<Slot>, name: string, k: int) {
    0 <= k < |slots| && slots[k].name == name && forall j :: 0 <= j < k ==> slots[j].name != name
  }

  // ------------------------------------------------------------------------------- the ends of a text

  /** White space and commas: what the program strips. */
  predicate Strips(c: char) {
    c in " ,"
  }

  lemma {:induction false} StripLeftIs(t: string) returns (a: nat)
    ensures a <= |t| && StripLeft(t) == t[a..] && (forall k :: 0 <= k < a ==> Strips(t[k])) && (a < |t| ==> !Strips(t[a]))
  {
    if t != "" && IsEdge(t[0]) {
      a := StripLeftIs(t[1..]);
      a := a + 1;
    } else {
      a := 0;
    }
  }

  lemma {:induction false} StripRightIs(t: string) returns (b: nat)
    ensures b <= |t| && StripRight(t) == t[..b] && (forall k :: b <= k < |t| ==> Strips(t[k])) && (b > 0 ==> !Strips(t[b - 1]))
    decreases |t|
  {
    if t != "" && IsEdge(t[|t| - 1]) {
      b := StripRightIs(t[..|t| - 1]);
      assert t[..|t| - 1][..b] == t[..b];
    } else {
      b := |t|;
    }
  }

  /** Stripping leaves the text from its first to its last character that is neither a space nor a comma. */
  lemma StripIs(t: string) returns (a: nat, b: nat)
    ensures a <= b <= |t| && StripRight(StripLeft(t)) == t[a..b]
    ensures forall k :: 0 <= k < a || b <= k < |t| ==> t[k] == ' ' || t[k] == ','
    ensures a < b ==> t[a] != ' ' && t[a] != ',' && t[b - 1] != ' ' && t[b - 1] != ','
  {
    hide StripLeft, StripRight;
    a := StripLeftIs(t);
    var rest := t[a..];
    b := StripRightIs(rest);
    assert rest[..b] == t[a..a + b];
    assert forall k :: 0 <= k < |rest| ==> rest[k] == t[a + k];
    assert forall k :: a + b <= k < |t| ==> t[k] == rest[k - a];
    b := a + b;
  }

  // ------------------------------------------------------------------------------------- runs of blanks

  /** Words with something between each two. */
  function Weave(words: seq<string>, gaps: seq<string>): string
    requires |words| == |gaps| + 1
  {
    if gaps == [] then words[0] else words[0] + gaps[0] + Weave(words[1..], gaps[1..])
  }

  function Singles(n: nat): (gaps: seq<string>)
    ensures |gaps| == n
  {
    seq(n, _ => " ")
  }

  ghost predicate NoPair(s: string) {
    forall k :: 0 <= k < |s| - 1 ==> !(IsBlank(s[k]) && IsBlank(s[k + 1]))
  }

  ghost predicate IsRun(s: string) {
    |s| >= 2 && forall k :: 0 <= k < |s| ==> IsBlank(s[k])
  }

  /** Words that hold no run, and whole runs between them. */
  ghost predicate Parted(words: seq<string>, runs: seq<string>) {
    && |words| == |runs| + 1 && (forall i :: 0 <= i < |runs| ==> IsRun(runs[i])) && (forall i :: 0 <= i < |words| ==> NoPair(words[i]))
    && (forall i :: 0 <= i < |runs| ==> words[i] == "" || !IsBlank(words[i][|words[i]| - 1]))
    && (forall i :: 1 <= i < |words| ==> words[i] == "" || !IsBlank(words[i][0]))
  }

  /** Squeezing puts one space for every run of two or more blanks and changes nothing else. */
  lemma {:induction false} SqueezeIs(s: string) returns (words: seq<string>, runs: seq<string>)
    ensures Parted(words, runs) && s == Weave(words, runs) && Squeeze(s) == Weave(words, Singles(|runs|))
    ensures words[0] <= s && (words[0] == "" ==> s == "" || BlankRun(s) >= 2) && (s == "" ==> words == [""] && runs == [])
    decreases |s|
  {
    if s == "" {
      words, runs := [""], [];
    } else {
      var n := BlankRun(s);
      if n >= 2 {
        var ws, rs := SqueezeIs(s[n..]);
        words, runs := [""] + ws, [s[..n]] + rs;
        RunFirst(s, n, ws, rs);
      } else {
        var ws, rs := SqueezeIs(s[1..]);
        words, runs := ws[0 := [s[0]] + ws[0]], rs;
        ByteFirst(s, ws, rs);
      }
    }
  }

  lemma SinglesCons(n: nat)
    ensures Singles(n + 1) == [" "] + Singles(n) && Singles(n + 1)[1..] == Singles(n)
  {
  }

  lemma RunFirst(s: string, n: nat, ws: seq<string>, rs: seq<string>)
    requires n == BlankRun(s) >= 2 && Parted(ws, rs) && s[n..] == Weave(ws, rs)
    requires Squeeze(s[n..]) == Weave(ws, Singles(|rs|)) && ws[0] <= s[n..]
    ensures var words, runs := [""] + ws, [s[..n]] + rs;
            Parted(words, runs) && s == Weave(words, runs) && Squeeze(s) == Weave(words, Singles(|runs|))
  {
    hide Weave, Singles, Parted, BlankRun;
    PartedLength(ws, rs);
    SinglesCons(|rs|);
    WeaveCons(ws, s[..n], rs);
    WeaveCons(ws, " ", Singles(|rs|));
    assert s == s[..n] + s[n..];
    RunParted(s, n, ws, rs);
  }

  lemma WeaveCons(ws: seq<string>, gap: string, gaps: seq<string>)
    requires |ws| == |gaps| + 1
    ensures Weave([""] + ws, [gap] + gaps) == gap + Weave(ws, gaps)
  {
    assert ([""] + ws)[1..] == ws && ([gap] + gaps)[1..] == gaps && "" + gap == gap;
  }

  lemma RunParted(s: string, n: nat, ws: seq<string>, rs: seq<string>)
    requires n == BlankRun(s) >= 2 && Parted(ws, rs) && ws[0] <= s[n..]
    ensures Parted([""] + ws, [s[..n]] + rs)
  {
    hide IsBlank, NoPair;
    var words, runs := [""] + ws, [s[..n]] + rs;
    assert forall i :: 1 <= i < |words| ==> words[i] == ws[i - 1];
    assert forall i :: 1 <= i < |runs| ==> runs[i] == rs[i - 1];
    if ws[0] != "" { assert ws[0][0] == s[n]; }
    EmptyHasNoPair();
  }

  lemma EmptyHasNoPair()
    ensures NoPair("")
  {
  }

  lemma ByteFirst(s: string, ws: seq<string>, rs: seq<string>)
    requires s != "" && BlankRun(s) < 2 && Parted(ws, rs) && s[1..] == Weave(ws, rs)
    requires Squeeze(s[1..]) == Weave(ws, Singles(|rs|)) && ws[0] <= s[1..] && (ws[0] == "" ==> s[1..] == "" || BlankRun(s[1..]) >= 2)
    requires s[1..] == "" ==> ws == [""] && rs == []
    ensures var words := ws[0 := [s[0]] + ws[0]];
            && Parted(words, rs) && s == Weave(words, rs) && Squeeze(s) == Weave(words, Singles(|rs|)) && words[0] <= s
  {
    hide *;
    PartedLength(ws, rs);
    PrefixGrows(s, ws[0]);
    WordGrows(ws, rs, [s[0]]);
    WordGrows(ws, Singles(|rs|), [s[0]]);
    LoneByte(s);
    StillParted(s, ws, rs);
  }

  lemma PrefixGrows(s: string, w: string)
    requires s != "" && w <= s[1..]
    ensures [s[0]] + w <= s && s == [s[0]] + s[1..]
  {
  }

  lemma PartedLength(words: seq<string>, runs: seq<string>)
    requires Parted(words, runs)
    ensures |words| == |runs| + 1
  {
  }

  lemma LoneByte(s: string)
    requires s != "" && BlankRun(s) < 2
    ensures Squeeze(s) == [s[0]] + Squeeze(s[1..])
    ensures IsBlank(s[0]) ==> s[1..] == "" || (!IsBlank(s[1]) && BlankRun(s[1..]) == 0)
  {
  }

  lemma StillParted(s: string, ws: seq<string>, rs: seq<string>)
    requires s != "" && Parted(ws, rs) && ws[0] <= s[1..] && (ws[0] == "" ==> s[1..] == "" || BlankRun(s[1..]) >= 2)
    requires IsBlank(s[0]) ==> s[1..] == "" || (!IsBlank(s[1]) && BlankRun(s[1..]) == 0)
    requires s[1..] == "" ==> ws == [""] && rs == []
    ensures Parted(ws[0 := [s[0]] + ws[0]], rs)
  {
    hide IsRun, BlankRun, IsBlank;
    var words := ws[0 := [s[0]] + ws[0]];
    var w := words[0];
    assert forall i :: 1 <= i < |words| ==> words[i] == ws[i];
    if ws[0] != "" {
      assert w[1..] == ws[0] && ws[0][0] == s[1] && w[|w| - 1] == ws[0][|ws[0]| - 1];
    }
    assert NoPair(w) by {
      assert forall k :: 1 <= k < |w| ==> w[k] == ws[0][k - 1];
    }
  }

  lemma WordGrows(ws: seq<string>, gaps: seq<string>, c: string)
    requires |ws| == |gaps| + 1
    ensures Weave(ws[0 := c + ws[0]], gaps) == c + Weave(ws, gaps)
  {
    var words := ws[0 := c + ws[0]];
    assert words[1..] == ws[1..];
    if gaps != [] {
      assert (c + ws[0]) + gaps[0] + Weave(ws[1..], gaps[1..]) == c + (ws[0] + gaps[0] + Weave(ws[1..], gaps[1..]));
    }
  }

  lemma {:induction false} SqueezedHasNoPair(s: string)
    ensures NoPair(Squeeze(s)) && (Squeeze(s) == "" <==> s == "")
    ensures s != "" ==> IsBlank(Squeeze(s)[0]) == IsBlank(s[0])
    decreases |s|
  {
    if s != "" {
      var n := BlankRun(s);
      if n >= 2 {
        SqueezedHasNoPair(s[n..]);
      } else {
        SqueezedHasNoPair(s[1..]);
      }
    }
  }

  /**
   * What tidying leaves of a text: every run of two or more blanks becomes one space, all else is kept, and then spaces and
   * commas go from both ends. No two blanks are neighbours in the result.
   */
  lemma TidyIs(s: string) returns (words: seq<string>, runs: seq<string>, a: nat, b: nat)
    ensures Parted(words, runs) && s == Weave(words, runs)
    ensures var t := Weave(words, Singles(|runs|));
            && a <= b <= |t| && Tidy(s) == t[a..b]
            && (forall k :: 0 <= k < a || b <= k < |t| ==> t[k] == ' ' || t[k] == ',')
            && (a < b ==> t[a] != ' ' && t[a] != ',' && t[b - 1] != ' ' && t[b - 1] != ',')
    ensures NoPair(Tidy(s))
  {
    hide Squeeze, StripLeft, StripRight, Parted, Weave, NoPair;
    words, runs := SqueezeIs(s);
    PartedLength(words, runs);
    a, b := StripIs(Squeeze(s));
    SqueezedHasNoPair(s);
    PartHasNoPair(Squeeze(s), a, b);
  }

  lemma PartHasNoPair(t: string, a: nat, b: nat)
    requires a <= b <= |t| && NoPair(t)
    ensures NoPair(t[a..b])
  {
    hide IsBlank;
  }
}
