/**
 * Rendering an intent pattern as a sentence. The rewriting the program performs on a text, one innermost group at a
 * time, and the recursive rendering of the pattern's tree that it amounts to.
 */
module Speaking {
  import opened Blanks

  // -------------------------------------------------------------------------------- rewriting a text

  /** The first closing bracket that has an opening one before it, and the last opening one before that. */
  datatype Group = NoGroup | Group(start: nat, end: nat)

  /** `open` is the last opening bracket before i, or -1. */
  function FindFrom(s: string, i: nat, open: int, o: char, c: char): (g: Group)
    requires -1 <= open < i <= |s| && (open >= 0 ==> s[open] == o)
    ensures g.Group? ==> g.start < g.end < |s| && i <= g.end && s[g.end] == c && s[g.start] == o
    decreases |s| - i
  {
    if i == |s| then NoGroup
    else if s[i] == o then FindFrom(s, i + 1, i, o, c)
    else if s[i] == c && open >= 0 then Group(open, i)
    else FindFrom(s, i + 1, open, o, c)
  }

  function Find(s: string, o: char, c: char): (g: Group)
    ensures g.Group? ==> g.start < g.end < |s| && s[g.end] == c && s[g.start] == o
  {
    FindFrom(s, 0, -1, o, c)
  }

  /** Optional groups go, innermost first. */
  function DropOptions(s: string): string
    decreases |s|
  {
    match Find(s, '[', ']')
    case NoGroup => s
    case Group(a, b) => DropOptions(s[..a] + s[b + 1..])
  }

  /** The pieces between bars. */
  function Alternatives(s: string): (alts: seq<string>)
    ensures |alts| >= 1 && forall i :: 0 <= i < |alts| ==> |alts[i]| <= |s|
    decreases |s|
  {
    var i := BarAt(s, 0);
    if i == |s| then [s] else [s[..i]] + Alternatives(s[i + 1..])
  }

  function BarAt(s: string, i: nat): (j: nat)
    requires i <= |s|
    ensures i <= j <= |s| && (j < |s| ==> s[j] == '|') && forall k :: i <= k < j ==> s[k] != '|'
    decreases |s| - i
  {
    if i < |s| && s[i] != '|' then BarAt(s, i + 1) else i
  }

  /** How many alternatives are not blank. */
  function Real(alts: seq<string>): nat {
    if alts == [] then 0 else (if Trim(alts[0]) == "" then 0 else 1) + Real(alts[1..])
  }

  /** The first alternative that is not blank, trimmed; empty when all are. */
  function FirstReal(alts: seq<string>): (s: string)
    ensures s == "" || exists i :: 0 <= i < |alts| && |s| <= |alts[i]|
  {
    if alts == [] then ""
    else if Trim(alts[0]) != "" then Trim(alts[0])
    else
      var s := FirstReal(alts[1..]);
      assert s != "" ==> exists i :: 0 <= i < |alts[1..]| && |s| <= |alts[1..][i]|;
      s
  }

  /** The choice a group stands for: nothing when it offers at most one real alternative and a blank one. */
  function Choose(alts: seq<string>): string {
    var count := Real(alts);
    if count == 0 || (count < |alts| && count <= 1) then "" else FirstReal(alts)
  }

  lemma ChooseShort(s: string)
    ensures |Choose(Alternatives(s))| <= |s|
  {
  }

  /** Alternative groups collapse to their choice, innermost first. */
  function Collapse(s: string): string
    decreases |s|
  {
    match Find(s, '(', ')')
    case NoGroup => s
    case Group(a, b) =>
      ChooseShort(s[a + 1..b]);
      Collapse(s[..a] + Choose(Alternatives(s[a + 1..b])) + s[b + 1..])
  }

  datatype Slot = Slot(name: string, value: string)

  predicate StartsName(c: char) {
    'a' <= c <= 'z' || c == '_'
  }

  predicate InName(c: char) {
    'a' <= c <= 'z' || '0' <= c <= '9' || c == '_'
  }

  function NameEnd(s: string, i: nat): (j: nat)
    requires i <= |s|
    ensures i <= j <= |s| && (j < |s| ==> !InName(s[j])) && forall k :: i <= k < j ==> InName(s[k])
    decreases |s| - i
  {
    if i < |s| && InName(s[i]) then NameEnd(s, i + 1) else i
  }

  /** The length of the slot a text begins with, braces included; 0 when it begins with none. */
  function SlotLength(s: string): (n: nat)
    ensures n <= |s| && (n > 0 ==> n >= 3 && s[0] == '{' && s[n - 1] == '}')
  {
    if |s| < 2 || s[0] != '{' || !StartsName(s[1]) then 0
    else
      var e := NameEnd(s, 1);
      if e < |s| && s[e] == '}' then e + 1 else 0
  }

  datatype Bound = Unbound | Bound(value: string)

  function Lookup(slots: seq<Slot>, name: string): Bound {
    if slots == [] then Unbound
    else if slots[0].name == name then Bound(slots[0].value)
    else Lookup(slots[1..], name)
  }

  function Spaced(name: string): (s: string)
    ensures |s| == |name| && forall i :: 0 <= i < |s| ==> s[i] == if name[i] == '_' then ' ' else name[i]
  {
    seq(|name|, i requires 0 <= i < |name| => if name[i] == '_' then ' ' else name[i])
  }

  /** A slot's value, or its name with spaces for underscores. */
  function Filling(slots: seq<Slot>, name: string): string {
    match Lookup(slots, name)
    case Unbound => Spaced(name)
    case Bound(value) => value
  }

  /** One pass from left to right; what a slot is replaced by is not looked at again. */
  function Fill(s: string, slots: seq<Slot>): string
    decreases |s|
  {
    if s == "" then ""
    else
      var n := SlotLength(s);
      if n == 0 then [s[0]] + Fill(s[1..], slots)
      else Filling(slots, s[1..n - 1]) + Fill(s[n..], slots)
  }

  datatype Filled = NoRoom | Filled(text: string)

  /**
   * Filling inside a buffer of `cap` characters: the text in hand, done and still to do, must leave room for its
   * terminator after each slot value goes in, whatever later slots would give back.
   */
  function FillWithin(done: string, s: string, slots: seq<Slot>, cap: nat): Filled
    decreases |s|
  {
    if s == "" then Filled(done)
    else
      var n := SlotLength(s);
      if n == 0 then FillWithin(done + [s[0]], s[1..], slots, cap)
      else
        match Lookup(slots, s[1..n - 1])
        case Unbound => FillWithin(done + Spaced(s[1..n - 1]), s[n..], slots, cap)
        case Bound(value) =>
          if |done| + |value| + |s| - n >= cap then NoRoom else FillWithin(done + value, s[n..], slots, cap)
  }

  lemma {:induction false} FillWithinFills(done: string, s: string, slots: seq<Slot>, cap: nat)
    ensures var f := FillWithin(done, s, slots, cap); f.Filled? ==> f.text == done + Fill(s, slots)
    decreases |s|
  {
    hide SlotLength, Lookup, Spaced;
    if s != "" {
      var n := SlotLength(s);
      if n == 0 {
        FillWithinFills(done + [s[0]], s[1..], slots, cap);
      } else {
        FillWithinFills(done + Filling(slots, s[1..n - 1]), s[n..], slots, cap);
      }
    }
  }

  /** A slot that has a value stands at offset p. */
  predicate BoundAt(s: string, slots: seq<Slot>, p: int) {
    0 <= p < |s| && var n := SlotLength(s[p..]); n > 0 && Lookup(slots, s[p + 1..p + n - 1]).Bound?
  }

  /** The text right after that slot's value has gone in: what is before it is filled, what is behind it is not. */
  function JustFilled(s: string, slots: seq<Slot>, p: int): string
    requires BoundAt(s, slots, p)
  {
    var n := SlotLength(s[p..]);
    Fill(s[..p], slots) + Lookup(slots, s[p + 1..p + n - 1]).value + s[p + n..]
  }

  /** At some moment the text and its terminator, `done` characters before them, need more than the buffer has. */
  ghost predicate Overflows(done: nat, s: string, slots: seq<Slot>, cap: nat) {
    exists p :: BoundAt(s, slots, p) && done + |JustFilled(s, slots, p)| >= cap
  }

  /** Filling succeeds exactly when the buffer is longer than the text ever gets. */
  lemma {:induction false} FillFitsIff(done: string, s: string, slots: seq<Slot>, cap: nat)
    ensures FillWithin(done, s, slots, cap).NoRoom? <==> Overflows(|done|, s, slots, cap)
    decreases |s|
  {
    hide SlotLength, Lookup, BoundAt, JustFilled;
    if s == "" {
      NothingBound(s, slots);
    } else {
      var n := SlotLength(s);
      if n == 0 {
        FillFitsIff(done + [s[0]], s[1..], slots, cap);
        NotBound(s, slots);
        OverflowsLater(|done|, s, slots, cap, 1, [s[0]]);
      } else {
        var name := s[1..n - 1];
        FirstBound(s, slots);
        OverflowsLater(|done|, s, slots, cap, n, Filling(slots, name));
        FillFitsIff(done + Filling(slots, name), s[n..], slots, cap);
      }
    }
  }

  lemma NothingBound(s: string, slots: seq<Slot>)
    requires s == ""
    ensures forall p :: !BoundAt(s, slots, p)
  {
  }

  lemma NotBound(s: string, slots: seq<Slot>)
    requires SlotLength(s) == 0
    ensures !BoundAt(s, slots, 0)
  {
    hide SlotLength;
    assert s[0..] == s;
  }

  /** What a text's first slot does. */
  lemma FirstBound(s: string, slots: seq<Slot>)
    requires SlotLength(s) > 0
    ensures var n := SlotLength(s); var b := Lookup(slots, s[1..n - 1]);
            && BoundAt(s, slots, 0) == b.Bound?
            && (b.Bound? ==> |JustFilled(s, slots, 0)| == |b.value| + |s| - n)
  {
    hide SlotLength, Lookup;
    assert s[0..] == s;
  }

  /** A step goes over one character or one slot, and leaves this in its place. */
  ghost predicate StepIs(s: string, slots: seq<Slot>, n: nat, piece: string) {
    s != "" && if SlotLength(s) == 0 then n == 1 && piece == [s[0]]
               else n == SlotLength(s) && piece == Filling(slots, s[1..n - 1])
  }

  /** After the first step the moments of the text are those of the rest. */
  lemma OverflowsLater(done: nat, s: string, slots: seq<Slot>, cap: nat, n: nat, piece: string)
    requires StepIs(s, slots, n, piece)
    ensures Overflows(done, s, slots, cap) <==>
            (BoundAt(s, slots, 0) && done + |JustFilled(s, slots, 0)| >= cap) || Overflows(done + |piece|, s[n..], slots, cap)
  {
    hide SlotLength, Lookup, BoundAt, JustFilled, StepIs;
    StepLength(s, slots, n, piece);
    forall p | BoundAt(s, slots, p)
      ensures p == 0 || (p >= n && BoundAt(s[n..], slots, p - n)
                         && |JustFilled(s, slots, p)| == |piece| + |JustFilled(s[n..], slots, p - n)|)
    {
      if p != 0 {
        BoundBehind(s, slots, n, piece, p);
        MomentBehind(s, slots, n, piece, p);
      }
    }
    forall p | BoundAt(s[n..], slots, p)
      ensures BoundAt(s, slots, p + n) && |JustFilled(s, slots, p + n)| == |piece| + |JustFilled(s[n..], slots, p)|
    {
      BoundAhead(s, slots, n, p);
      MomentBehind(s, slots, n, piece, p + n);
    }
  }

  lemma StepLength(s: string, slots: seq<Slot>, n: nat, piece: string)
    requires StepIs(s, slots, n, piece)
    ensures 1 <= n <= |s|
  {
    hide Lookup;
  }

  /** Slots do not overlap: none begins inside another. */
  lemma BoundBehind(s: string, slots: seq<Slot>, n: nat, piece: string, p: int)
    requires StepIs(s, slots, n, piece) && BoundAt(s, slots, p) && p != 0
    ensures p >= n && n <= |s| && BoundAt(s[n..], slots, p - n)
  {
    hide Lookup, SlotLength;
    SlotInside(s);
    SlotInside(s[p..]);
    assert p >= n;
    BoundAhead(s, slots, n, p - n);
  }

  lemma BoundAhead(s: string, slots: seq<Slot>, n: nat, p: int)
    requires n <= |s|
    ensures 0 <= p ==> BoundAt(s[n..], slots, p) == BoundAt(s, slots, p + n)
    ensures BoundAt(s[n..], slots, p) ==> 0 <= p
  {
    hide Lookup, SlotLength;
    if 0 <= p < |s| - n {
      assert s[n..][p..] == s[p + n..];
      var m := SlotLength(s[p + n..]);
      if m > 0 {
        SlotInside(s[p + n..]);
        assert s[n..][p + 1..p + m - 1] == s[p + n + 1..p + n + m - 1];
      }
    }
  }

  /** A slot opens with its only opening brace. */
  lemma SlotInside(s: string)
    ensures SlotLength(s) > 0 ==> SlotLength(s) >= 3 && s[0] == '{'
    ensures forall k :: 0 < k < SlotLength(s) ==> s[k] != '{'
  {
  }

  lemma MomentBehind(s: string, slots: seq<Slot>, n: nat, piece: string, p: int)
    requires StepIs(s, slots, n, piece) && n <= p && n <= |s| && BoundAt(s, slots, p) && BoundAt(s[n..], slots, p - n)
    ensures JustFilled(s, slots, p) == piece + JustFilled(s[n..], slots, p - n)
  {
    hide Lookup, SlotLength, Fill, StepIs;
    var rest, m := s[n..], SlotLength(s[p..]);
    assert rest[p - n..] == s[p..];
    SlotInside(s[p..]);
    assert rest[p - n + 1..p - n + m - 1] == s[p + 1..p + m - 1];
    assert rest[p - n + m..] == s[p + m..];
    PrefixFills(s, slots, n, piece, p);
    JoinFour(piece, Fill(rest[..p - n], slots), Lookup(slots, s[p + 1..p + m - 1]).value, s[p + m..]);
  }

  lemma JoinFour(a: string, b: string, c: string, d: string)
    ensures (a + b) + c + d == a + (b + c + d)
  {
  }

  /** The first step of a prefix that holds all of it is the first step of the text. */
  lemma PrefixFills(s: string, slots: seq<Slot>, n: nat, piece: string, p: int)
    requires StepIs(s, slots, n, piece) && n <= p <= |s|
    ensures Fill(s[..p], slots) == piece + Fill(s[n..][..p - n], slots)
  {
    hide Lookup;
    SlotOfPrefix(s, p);
    var m := SlotLength(s);
    assert s[..p][n..] == s[n..][..p - n];
    if m > 0 {
      assert s[..p][1..m - 1] == s[1..m - 1];
    }
  }

  lemma SlotOfPrefix(s: string, p: int)
    requires SlotLength(s) <= p <= |s| && p >= 1
    ensures SlotLength(s[..p]) == SlotLength(s)
  {
    if p >= 2 && s[0] == '{' && StartsName(s[1]) {
      NameOfPrefix(s, 1, p);
    }
  }

  lemma {:induction false} NameOfPrefix(s: string, i: nat, p: int)
    requires i <= p <= |s|
    ensures NameEnd(s[..p], i) == if NameEnd(s, i) < p then NameEnd(s, i) else p
    decreases p - i
  {
    if i < p && InName(s[i]) {
      NameOfPrefix(s, i + 1, p);
    }
  }

  /** Filling is refused although the finished sentence would fit: a long value early on, a short one after it. */
  lemma FillNeedsRoomBetween()
    ensures var slots := [Slot("a", "wxyz"), Slot("b", "")];
            Fill("{a}{b}", slots) == "wxyz" && FillWithin("", "{a}{b}", slots, 7).NoRoom?
  {
    var slots := [Slot("a", "wxyz"), Slot("b", "")];
    var s := "{a}{b}";
    assert NameEnd(s, 1) == 2;
    assert s[1..2] == "a" && s[3..] == "{b}";
    assert NameEnd("{b}", 1) == 2;
    assert "{b}"[1..2] == "b" && "{b}"[3..] == "";
  }

  function BlankRun(s: string): (n: nat)
    ensures n <= |s| && (forall i :: 0 <= i < n ==> IsBlank(s[i])) && (n < |s| ==> !IsBlank(s[n]))
  {
    if s != "" && IsBlank(s[0]) then 1 + BlankRun(s[1..]) else 0
  }

  /** Runs of two or more blanks become one space. */
  function Squeeze(s: string): (t: string)
    ensures |t| <= |s|
    decreases |s|
  {
    if s == "" then ""
    else
      var n := BlankRun(s);
      if n >= 2 then " " + Squeeze(s[n..]) else [s[0]] + Squeeze(s[1..])
  }

  predicate IsEdge(c: char) {
    c == ' ' || c == ','
  }

  function StripLeft(s: string): (t: string)
    ensures |t| <= |s|
  {
    if s != "" && IsEdge(s[0]) then StripLeft(s[1..]) else s
  }

  function StripRight(s: string): (t: string)
    ensures |t| <= |s|
  {
    if s != "" && IsEdge(s[|s| - 1]) then StripRight(s[..|s| - 1]) else s
  }

  function Tidy(s: string): string {
    StripRight(StripLeft(Squeeze(s)))
  }

  /** The whole rendering, as the program rewrites. */
  function Speak(pattern: string, slots: seq<Slot>): string {
    Tidy(Fill(Collapse(DropOptions(pattern)), slots))
  }
}
