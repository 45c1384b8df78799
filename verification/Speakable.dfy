/**
 * The renderer as it works: one buffer of characters, ended by a zero, in which every step edits the text in place.
 * Each step is proved to leave the text its function in module Speaking gives.
 */
module Speakable {
  import opened Status
  import opened Blanks
  import opened Speaking

  const NUL: char := 0 as char
  /** The buffer holds a text and its terminator. */
  predicate Holds(out: array<char>, text: string)
    reads out
  {
    |text| < out.Length && HoldsFrom(out, text, 0)
  }

  /** The buffer is in order from some place on. */
  predicate HoldsFrom(out: array<char>, text: string, from: nat)
    requires |text| < out.Length
    reads out
  {
    (forall k {:trigger text[k]} :: from <= k < |text| ==> out[k] == text[k] != NUL) && out[|text|] == NUL
  }

  /** The length of the text, counted from some place to the terminator. */
  method Measure(out: array<char>, ghost text: string, from: nat) returns (n: nat)
    requires from <= |text| < out.Length && HoldsFrom(out, text, from)
    ensures n == |text| - from
  {
    n := 0;
    while out[from + n] != NUL
      invariant n <= |text| - from && (from + n < |text| ==> out[from + n] == text[from + n] != NUL)
      decreases |text| - n
    {
      n := n + 1;
    }
  }

  /** Moves a stretch of the buffer; the stretches may overlap. */
  method Move(out: array<char>, to: nat, from: nat, count: nat)
    requires to + count <= out.Length && from + count <= out.Length
    modifies out
    ensures forall k :: 0 <= k < out.Length ==>
      out[k] == if to <= k < to + count then old(out[from + (k - to)]) else old(out[k])
  {
    forall k | 0 <= k < count {
      out[to + k] := out[from + k];
    }
  }

  function Spliced(text: string, start: nat, end: nat, value: string): string
    requires start <= end <= |text|
  {
    text[..start] + value + text[end..]
  }

  lemma HoldsSpliced(out: array<char>, text: string, start: nat, end: nat, value: string)
    requires start <= end <= |text| && |text| - (end - start) + |value| < out.Length
    requires forall k :: 0 <= k < start ==> out[k] == text[k] != NUL
    requires forall k :: 0 <= k < |value| ==> out[start + k] == value[k] != NUL
    requires forall k :: end <= k < |text| ==> out[k - end + start + |value|] == text[k] != NUL
    requires out[|text| - (end - start) + |value|] == NUL
    ensures Holds(out, Spliced(text, start, end, value))
  {
    var after := Spliced(text, start, end, value);
    forall k | 0 <= k < |after|
      ensures out[k] == after[k] != NUL
    {
      if k < start {
        assert after[k] == text[k];
      } else if k < start + |value| {
        assert after[k] == value[k - start];
      } else {
        assert after[k] == text[k - start - |value| + end];
      }
    }
  }

  /** Puts `value` where out[start..end] was, when the result and its terminator fit. */
  method Replace(out: array<char>, ghost text: string, start: nat, end: nat, value: string) returns (ok: bool)
    requires Holds(out, text) && start <= end <= |text| && NUL !in value
    modifies out
    ensures ok == (|text| - (end - start) + |value| < out.Length)
    ensures ok ==> Holds(out, Spliced(text, start, end, value))
    ensures !ok ==> out[..] == old(out[..])
  {
    hide Spliced;
    var len := Measure(out, text, 0);
    if |value| >= out.Length - (len - (end - start)) {
      return false;
    }
    Move(out, start + |value|, end, len - end + 1);
    forall k | 0 <= k < |value| {
      out[start + k] := value[k];
    }
    HoldsSpliced(out, text, start, end, value);
    ok := true;
  }

  // -------------------------------------------------------------------------------- groups

  /** Finds the first group closed, in one scan. */
  method FindGroup(out: array<char>, ghost text: string, open: char, close: char)
    returns (found: bool, start: nat, end: nat)
    requires Holds(out, text) && open != close && open != NUL && close != NUL
    ensures Find(text, open, close) == if found then Group(start, end) else NoGroup
    ensures found ==> start < end < |text|
  {
    var foundOpen := false;
    start, end, found := 0, 0, false;
    var i := 0;
    while out[i] != NUL
      invariant 0 <= i <= |text| && (foundOpen ==> start < i && text[start] == open)
      invariant Find(text, open, close) == FindFrom(text, i, if foundOpen then start else -1, open, close)
      decreases |text| - i
    {
      if out[i] == open {
        start := i;
        foundOpen := true;
      } else if out[i] == close && foundOpen {
        end := i;
        found := true;
        return;
      }
      i := i + 1;
    }
  }

  /** Removes every optional group. */
  method DropAll(out: array<char>, ghost text: string)
    requires Holds(out, text)
    modifies out
    ensures Holds(out, DropOptions(text))
  {
    ghost var now := text;
    while true
      invariant Holds(out, now) && DropOptions(now) == DropOptions(text)
      decreases |now|
    {
      var found, start, end := FindGroup(out, now, '[', ']');
      if !found {
        return;
      }
      var ok := Replace(out, now, start, end + 1, "");
      assert Spliced(now, start, end + 1, "") == now[..start] + now[end + 1..];
      now := Spliced(now, start, end + 1, "");
    }
  }

  /** The stretch begin..i without the blanks at its ends. */
  method TrimSpan(out: array<char>, ghost text: string, begin: nat, i: nat) returns (left: nat, right: nat)
    requires Holds(out, text) && begin <= i <= |text|
    ensures begin <= left <= right <= i && text[left..right] == Trim(text[begin..i])
  {
    hide Trim, IsBlank;
    left, right := begin, i;
    while left < right && IsBlank(out[left])
      invariant begin <= left <= right && forall k :: begin <= k < left ==> IsBlank(text[k])
    {
      assert out[left] == text[left];
      left := left + 1;
    }
    assert left < right ==> out[left] == text[left];
    while right > left && IsBlank(out[right - 1])
      invariant left <= right <= i && (left == right ==> left == i) && forall k :: right <= k < i ==> IsBlank(text[k])
    {
      assert out[right - 1] == text[right - 1];
      right := right - 1;
    }
    assert left < right ==> out[right - 1] == text[right - 1];
    TrimAt(text, begin, i, left, right);
  }

  lemma TrimAt(text: string, begin: nat, i: nat, left: nat, right: nat)
    requires begin <= left <= right <= i <= |text| && (left < right ==> !IsBlank(text[left]) && !IsBlank(text[right - 1]))
    requires (forall k :: begin <= k < left ==> IsBlank(text[k])) && (forall k :: right <= k < i ==> IsBlank(text[k]))
    requires left == right ==> left == i
    ensures text[left..right] == Trim(text[begin..i])
  {
    hide Trim, IsBlank;
    var s := text[begin..i];
    TrimIs(s, left - begin, right - begin);
    assert s[left - begin..right - begin] == text[left..right];
  }

  lemma {:induction false} BarIs(s: string, from: nat, j: nat)
    requires from <= j <= |s| && (j < |s| ==> s[j] == '|') && forall k :: from <= k < j ==> s[k] != '|'
    ensures BarAt(s, from) == j
    decreases j - from
  {
    if from < j {
      BarIs(s, from + 1, j);
    }
  }

  /** The first alternative of what is left, once its end is known. */
  lemma FirstAlternative(s: string, j: nat)
    requires j <= |s| && (j < |s| ==> s[j] == '|') && forall k :: 0 <= k < j ==> s[k] != '|'
    ensures Alternatives(s) == [s[..j]] + if j == |s| then [] else Alternatives(s[j + 1..])
  {
    BarIs(s, 0, j);
    assert s[..|s|] == s;
  }

  lemma {:induction false} RealGrows(alts: seq<string>, s: string)
    ensures Real(alts + [s]) == Real(alts) + (if Trim(s) == "" then 0 else 1) && Real(alts) <= |alts|
    ensures FirstReal(alts + [s]) == if Real(alts) > 0 then FirstReal(alts) else Trim(s)
  {
    if alts == [] {
      assert alts + [s] == [s] && [s][1..] == [];
    } else {
      RealGrows(alts[1..], s);
      assert (alts + [s])[1..] == alts[1..] + [s];
    }
  }

  /** The alternatives of the group are those seen and those from `begin` on; behind the end there are none. */
  ghost predicate Ahead(text: string, start: nat, begin: nat, end: nat, seen: seq<string>)
    requires start < end <= |text|
  {
    Alternatives(text[start + 1..end]) == seen + if begin <= end then Alternatives(text[begin..end]) else []
  }

  lemma AheadAtFirst(text: string, start: nat, end: nat)
    requires start < end <= |text|
    ensures Ahead(text, start, start + 1, end, [])
  {
    hide Alternatives;
    assert [] + Alternatives(text[start + 1..end]) == Alternatives(text[start + 1..end]);
  }

  lemma AheadNoMore(text: string, start: nat, begin: nat, end: nat, seen: seq<string>)
    requires start < end < begin && end <= |text| && Ahead(text, start, begin, end, seen)
    ensures Alternatives(text[start + 1..end]) == seen
  {
    hide Alternatives;
  }

  /** The alternative begin..i joins those seen. */
  lemma NextAlternative(text: string, start: nat, begin: nat, i: nat, end: nat, seen: seq<string>)
    requires start < begin <= i <= end <= |text| && (i < end ==> text[i] == '|')
    requires (forall k :: begin <= k < i ==> text[k] != '|') && Ahead(text, start, begin, end, seen)
    ensures Ahead(text, start, i + 1, end, seen + [text[begin..i]])
  {
    hide Alternatives;
    FirstBetween(text, begin, i, end);
    Associate(seen, [text[begin..i]], if i < end then Alternatives(text[i + 1..end]) else []);
  }

  lemma Associate(a: seq<string>, b: seq<string>, c: seq<string>)
    ensures a + (b + c) == a + b + c
  {
  }

  lemma FirstBetween(text: string, begin: nat, i: nat, end: nat)
    requires begin <= i <= end <= |text| && (i < end ==> text[i] == '|')
    requires forall k :: begin <= k < i ==> text[k] != '|'
    ensures Alternatives(text[begin..end]) == [text[begin..i]] + if i < end then Alternatives(text[i + 1..end]) else []
  {
    hide Alternatives;
    var s := text[begin..end];
    FirstAlternative(s, i - begin);
    assert s[..i - begin] == text[begin..i];
    if i < end {
      assert s[i - begin + 1..] == text[i + 1..end];
    }
  }

  datatype Chosen = Chosen(drop: bool, first: nat, length: nat)

  /** What has been read of a group: how many worded alternatives, the first of them, and whether one was blank. */
  datatype Tally = Tally(worded: nat, empty: bool, first: nat, length: nat)

  ghost predicate Tallied(text: string, start: nat, end: nat, seen: seq<string>, t: Tally) {
    && t.worded == Real(seen) <= |seen| && t.empty == (Real(seen) < |seen|)
    && (t.worded > 0 ==> start < t.first && t.first + t.length <= end <= |text|
                         && text[t.first..t.first + t.length] == FirstReal(seen))
  }

  /** One alternative more, which trimmed is left..right: blank, the first worded one, or another. */
  function Counted(t: Tally, left: nat, right: nat): Tally
    requires left <= right
  {
    if right == left then t.(empty := true)
    else if t.worded == 0 then t.(worded := 1, first := left, length := right - left)
    else t.(worded := t.worded + 1)
  }

  lemma TallyNothing(text: string, start: nat, end: nat)
    ensures Tallied(text, start, end, [], Tally(0, false, 0, 0))
  {
  }

  /** The tally takes in the alternative begin..i, which trimmed is left..right. */
  lemma TallyNext(text: string, start: nat, begin: nat, i: nat, end: nat, left: nat, right: nat, seen: seq<string>,
                  t: Tally)
    requires Tallied(text, start, end, seen, t) && start < begin <= left <= right <= i <= end <= |text|
    requires text[left..right] == Trim(text[begin..i])
    ensures Tallied(text, start, end, seen + [text[begin..i]], Counted(t, left, right))
  {
    hide Real, FirstReal, Trim;
    RealGrows(seen, text[begin..i]);
  }

  /** Reads the alternatives of the group start..end from left to right and says which text it stands for. */
  method ChooseIn(out: array<char>, ghost text: string, start: nat, end: nat) returns (c: Chosen)
    requires Holds(out, text) && start < end < |text|
    ensures c.drop ==> Choose(Alternatives(text[start + 1..end])) == ""
    ensures !c.drop ==> start < c.first && c.first + c.length <= end
    ensures !c.drop ==> Choose(Alternatives(text[start + 1..end])) == text[c.first..c.first + c.length]
  {
    hide Alternatives, Trim, Choose, Tallied, Counted, Ahead;
    ghost var seen: seq<string> := [];
    var begin, t := start + 1, Tally(0, false, 0, 0);
    TallyNothing(text, start, end);
    AheadAtFirst(text, start, end);
    var i: nat := begin;
    while i <= end
      invariant start < begin <= i <= end + 1 && (i == end + 1 ==> begin == i)
      invariant forall k :: begin <= k < i ==> text[k] != '|'
      invariant Ahead(text, start, begin, end, seen) && Tallied(text, start, end, seen, t)
    {
      assert out[i] == text[i];
      if i == end || out[i] == '|' {
        var left, right := TrimSpan(out, text, begin, i);
        NextAlternative(text, start, begin, i, end, seen);
        TallyNext(text, start, begin, i, end, left, right, seen, t);
        t := Counted(t, left, right);
        seen := seen + [text[begin..i]];
        begin := i + 1;
      }
      i := i + 1;
    }
    AheadNoMore(text, start, begin, end, seen);
    TallyChooses(text, start, end, seen, t);
    c := Chosen(t.worded == 0 || (t.empty && t.worded <= 1), t.first, t.length);
  }

  lemma TallyChooses(text: string, start: nat, end: nat, alts: seq<string>, t: Tally)
    requires Tallied(text, start, end, alts, t)
    ensures t.worded == 0 || (t.empty && t.worded <= 1) ==> Choose(alts) == ""
    ensures !(t.worded == 0 || (t.empty && t.worded <= 1)) ==>
      start < t.first && t.first + t.length <= end <= |text| && Choose(alts) == text[t.first..t.first + t.length]
  {
    hide Real, FirstReal;
  }

  lemma HeldSlice(out: array<char>, text: string, from: nat, to: nat)
    requires Holds(out, text) && from <= to <= |text|
    ensures var s := text[from..to]; forall k :: 0 <= k < to - from ==> out[from + k] == s[k] != NUL
  {
    var s := text[from..to];
    forall k | 0 <= k < to - from
      ensures out[from + k] == s[k] != NUL
    {
      assert s[k] == text[from + k];
    }
  }

  /** Moves the chosen text over its group; the text behind the group stays. */
  method MoveChosen(out: array<char>, ghost text: string, start: nat, end: nat, first: nat, length: nat)
    requires Holds(out, text) && start < first && first + length <= end < |text|
    modifies out
    ensures forall k :: 0 <= k < start ==> out[k] == text[k] != NUL
    ensures var chosen := text[first..first + length]; forall k :: 0 <= k < length ==> out[start + k] == chosen[k] != NUL
    ensures HoldsFrom(out, text, end + 1)
  {
    ghost var chosen := text[first..first + length];
    HeldSlice(out, text, first, first + length);
    Move(out, start, first, length);
    assert forall k :: 0 <= k < length ==> out[start + k] == chosen[k];
  }

  /** Moves the text behind `end` up to the value written at `start`. */
  method CloseUp(out: array<char>, ghost text: string, start: nat, end: nat, ghost value: string, length: nat)
    requires start <= end <= |text| < out.Length && length == |value| <= end - start && HoldsFrom(out, text, end)
    requires forall k :: 0 <= k < start ==> out[k] == text[k] != NUL
    requires forall k :: 0 <= k < length ==> out[start + k] == value[k] != NUL
    modifies out
    ensures Holds(out, Spliced(text, start, end, value))
  {
    hide Spliced;
    var tail := Measure(out, text, end);
    Move(out, start + length, end, tail + 1);
    HoldsSpliced(out, text, start, end, value);
  }

  /** Moves the chosen text over its group, then the tail behind it. */
  method Keep(out: array<char>, ghost text: string, start: nat, end: nat, first: nat, length: nat)
    requires Holds(out, text) && start < first && first + length <= end < |text|
    modifies out
    ensures Holds(out, Spliced(text, start, end + 1, text[first..first + length]))
  {
    hide Spliced, HoldsFrom;
    MoveChosen(out, text, start, end, first, length);
    CloseUp(out, text, start, end + 1, text[first..first + length], length);
  }

  lemma CollapseStep(text: string)
    ensures match Find(text, '(', ')')
            case NoGroup => Collapse(text) == text
            case Group(start, end) =>
              var pick := Choose(Alternatives(text[start + 1..end]));
              var next := Spliced(text, start, end + 1, pick);
              Collapse(text) == Collapse(next) && |next| < |text|
  {
    hide Alternatives, Choose, Find;
    var g := Find(text, '(', ')');
    if g.Group? {
      ChooseShort(text[g.start + 1..g.end]);
    }
  }

  /** Collapses every choice. */
  method CollapseAll(out: array<char>, ghost text: string)
    requires Holds(out, text)
    modifies out
    ensures Holds(out, Collapse(text))
  {
    hide Alternatives, Choose, Collapse, Find, Spliced;
    ghost var now := text;
    while true
      invariant Holds(out, now) && Collapse(now) == Collapse(text)
      decreases |now|
    {
      var found, start, end := FindGroup(out, now, '(', ')');
      CollapseStep(now);
      if !found {
        return;
      }
      var c := ChooseIn(out, now, start, end);
      ghost var pick := Choose(Alternatives(now[start + 1..end]));
      if c.drop {
        var ok := Replace(out, now, start, end + 1, "");
      } else {
        Keep(out, now, start, end, c.first, c.length);
      }
      now := Spliced(now, start, end + 1, pick);
    }
  }

  // -------------------------------------------------------------------------------- slots

  /** The length of the slot at i, braces included, or 0. */
  method SlotAt(out: array<char>, ghost text: string, i: nat) returns (n: nat)
    requires Holds(out, text) && i < |text|
    ensures n == SlotLength(text[i..]) <= |text| - i
  {
    ghost var s := text[i..];
    assert forall k :: 0 <= k < |s| ==> out[i + k] == s[k];
    if out[i] != '{' {
      return 0;
    }
    var end := i + 1;
    assert end == |text| ==> out[end] == NUL;
    if !StartsName(out[end]) {
      return 0;
    }
    while InName(out[end])
      invariant i < end <= |text|
      invariant NameEnd(s, end - i) == NameEnd(s, 1)
      decreases |text| - end
    {
      end := end + 1;
      assert end == |text| ==> out[end] == NUL;
    }
    if out[end] != '}' {
      return 0;
    }
    return end + 1 - i;
  }

  /** The value of the slot named out[from..from + length], the first of that name. */
  method ValueOf(out: array<char>, ghost text: string, from: nat, length: nat, slots: seq<Slot>) returns (b: Bound)
    requires Holds(out, text) && from + length <= |text|
    ensures b == Lookup(slots, text[from..from + length])
    ensures b.Bound? ==> exists i :: 0 <= i < |slots| && slots[i].value == b.value
  {
    ghost var name := text[from..from + length];
    assert out[from..from + length] == name;
    var i := 0;
    while i < |slots|
      invariant 0 <= i <= |slots| && Lookup(slots[i..], name) == Lookup(slots, name)
    {
      if |slots[i].name| == length && slots[i].name == out[from..from + length] {
        return Bound(slots[i].value);
      }
      assert slots[i..][1..] == slots[i + 1..];
      i := i + 1;
    }
    return Unbound;
  }

  /** Leaves the name of a slot in place of the slot, a space for each underscore. */
  method SpeakName(out: array<char>, ghost text: string, i: nat, n: nat)
    requires Holds(out, text) && n >= 3 && i + n <= |text|
    modifies out
    ensures Holds(out, Spliced(text, i, i + n, Spaced(text[i + 1..i + n - 1])))
  {
    hide Spliced, Spaced, HoldsFrom;
    MoveName(out, text, i, n);
    CloseUp(out, text, i, i + n, Spaced(text[i + 1..i + n - 1]), n - 2);
  }

  /** Moves a slot's name over its opening brace and spells it with spaces; the text behind the slot stays. */
  method MoveName(out: array<char>, ghost text: string, i: nat, n: nat)
    requires Holds(out, text) && n >= 3 && i + n <= |text|
    modifies out
    ensures var spoken := Spaced(text[i + 1..i + n - 1]);
            forall k :: 0 <= k < n - 2 ==> out[i + k] == spoken[k] != NUL
    ensures forall k :: 0 <= k < i ==> out[k] == text[k] != NUL
    ensures HoldsFrom(out, text, i + n)
  {
    ghost var name := text[i + 1..i + n - 1];
    NameAt(text, i, n);
    Move(out, i, i + 1, n - 2);
    assert forall k :: 0 <= k < n - 2 ==> out[i + k] == name[k];
    Unscore(out, name, i, n - 2);
  }

  lemma NameAt(text: string, i: nat, n: nat)
    requires n >= 3 && i + n <= |text|
    ensures var name := text[i + 1..i + n - 1]; forall k :: 0 <= k < n - 2 ==> name[k] == text[i + 1 + k]
  {
  }

  /** Turns the underscores of a name into spaces. */
  method Unscore(out: array<char>, ghost name: string, i: nat, count: nat)
    requires |name| == count && i + count <= out.Length && forall k :: 0 <= k < count ==> out[i + k] == name[k]
    modifies out
    ensures forall k :: 0 <= k < count ==> out[i + k] == Spaced(name)[k]
    ensures forall k :: 0 <= k < out.Length && !(i <= k < i + count) ==> out[k] == old(out[k])
  {
    for k := 0 to count
      invariant forall j :: 0 <= j < out.Length && !(i <= j < i + k) ==> out[j] == old(out[j])
      invariant forall j :: 0 <= j < k ==> out[i + j] == Spaced(name)[j]
    {
      assert out[i + k] == name[k];
      if out[i + k] == '_' {
        out[i + k] := ' ';
      }
    }
  }

  predicate Texts(slots: seq<Slot>) {
    forall i :: 0 <= i < |slots| ==> NUL !in slots[i].value
  }

  /** Fills the slot at i, when what it leaves fits, and says how many characters it left. */
  method FillSlot(out: array<char>, ghost text: string, i: nat, n: nat, slots: seq<Slot>)
    returns (ok: bool, count: nat)
    requires Holds(out, text) && Texts(slots) && n >= 3 && i + n <= |text|
    modifies out
    ensures var b := Lookup(slots, text[i + 1..i + n - 1]);
            ok == (b.Bound? ==> |text| - n + |b.value| < out.Length)
    ensures var filling := Filling(slots, text[i + 1..i + n - 1]);
            ok ==> count == |filling| && Holds(out, Spliced(text, i, i + n, filling))
  {
    var b := ValueOf(out, text, i + 1, n - 2, slots);
    match b
    case Bound(value) =>
      ok := Replace(out, text, i, i + n, value);
      count := |value|;
    case Unbound =>
      SpeakName(out, text, i, n);
      ok, count := true, n - 2;
  }

  lemma SplicedTail(done: string, rest: string, n: nat, filling: string)
    requires n <= |rest|
    ensures Spliced(done + rest, |done|, |done| + n, filling) == (done + filling) + rest[n..]
  {
  }

  /** Fills the slots in one pass. The position steps back when a slot leaves nothing, for the loop to step on again. */
  method FillAll(out: array<char>, ghost text: string, slots: seq<Slot>) returns (ok: bool)
    requires Holds(out, text) && Texts(slots)
    modifies out
    ensures ok == FillWithin("", text, slots, out.Length).Filled?
    ensures ok ==> Holds(out, Fill(text, slots))
  {
    hide SlotLength, Lookup, Spliced, FillWithin, Filling, Fill, Holds;
    FillWithinFills("", text, slots, out.Length);
    ghost var done, rest := "", text;
    assert done + rest == rest;
    Upcoming(out, done, rest);
    var i: int := 0;
    while out[i] != NUL
      invariant i == |done| < out.Length && Holds(out, done + rest) && (out[i] == NUL <==> rest == "")
      invariant FillWithin(done, rest, slots, out.Length) == FillWithin("", text, slots, out.Length)
      decreases |rest|
    {
      ghost var now := done + rest;
      FillStep(done, rest, slots, out.Length);
      var n := SlotAt(out, now, i);
      if n > 0 {
        var count;
        ok, count := FillSlot(out, now, i, n, slots);
        if !ok {
          return;
        }
        ghost var filling := Filling(slots, rest[1..n - 1]);
        SplicedTail(done, rest, n, filling);
        done, rest := done + filling, rest[n..];
        i := if count == 0 then i - 1 else i + (count - 1);
      } else {
        done, rest := done + [rest[0]], rest[1..];
      }
      Upcoming(out, done, rest);
      i := i + 1;
    }
    FillEnds(done, rest, slots, out.Length);
    assert "" + Fill(text, slots) == Fill(text, slots);
    ok := true;
  }

  /** One step of the pass, on the text still to do. */
  lemma FillStep(done: string, rest: string, slots: seq<Slot>, cap: nat)
    requires rest != ""
    ensures var now, i := done + rest, |done|; now[i..] == rest && |now| == i + |rest|
    ensures var n, now, i := SlotLength(rest), done + rest, |done|;
            n > 0 ==> now[i + 1..i + n - 1] == rest[1..n - 1]
    ensures var n := SlotLength(rest);
            n == 0 ==> done + rest == (done + [rest[0]]) + rest[1..]
                       && FillWithin(done, rest, slots, cap) == FillWithin(done + [rest[0]], rest[1..], slots, cap)
    ensures var n := SlotLength(rest); n > 0 ==>
              var name := rest[1..n - 1];
              var b := Lookup(slots, name);
              FillWithin(done, rest, slots, cap) ==
              if b.Bound? && |done + rest| - n + |b.value| >= cap then NoRoom
              else FillWithin(done + Filling(slots, name), rest[n..], slots, cap)
  {
  }

  lemma Upcoming(out: array<char>, done: string, rest: string)
    requires Holds(out, done + rest)
    ensures |done| < out.Length && (out[|done|] == NUL <==> rest == "")
  {
    if rest != "" {
      assert (done + rest)[|done|] == rest[0];
    }
  }

  lemma FillEnds(done: string, rest: string, slots: seq<Slot>, cap: nat)
    requires rest == ""
    ensures done + rest == done && "" + done == done && FillWithin(done, rest, slots, cap) == Filled(done)
  {
  }

  // -------------------------------------------------------------------------------- blanks

  method RunEnd(out: array<char>, ghost text: string, i: nat) returns (end: nat)
    requires i <= |text| < out.Length && HoldsFrom(out, text, i)
    ensures i <= end <= |text| && end - i == BlankRun(text[i..])
  {
    end := i;
    while out[end] != NUL && IsBlank(out[end])
      invariant i <= end <= |text|
      invariant BlankRun(text[i..]) == end - i + BlankRun(text[end..])
      decreases |text| - end
    {
      assert text[end..][1..] == text[end + 1..];
      end := end + 1;
    }
  }

  /** Squeezes runs of blanks, writing behind the place it reads from. */
  method SqueezeAll(out: array<char>, ghost text: string) returns (written: nat)
    requires Holds(out, text)
    modifies out
    ensures Holds(out, Squeeze(text)) && written == |Squeeze(text)|
  {
    hide Squeeze, BlankRun;
    written := 0;
    var i := 0;
    ghost var kept := "";
    assert text[0..] == text;
    while out[i] != NUL
      invariant 0 <= written <= i <= |text|
      invariant HoldsFrom(out, text, i) && (i < |text| ==> out[i] == text[i] != NUL)
      invariant written == |kept| && forall k :: 0 <= k < written ==> out[k] == kept[k] != NUL
      invariant kept + Squeeze(text[i..]) == Squeeze(text)
      decreases |text| - i
    {
      var end := RunEnd(out, text, i);
      SqueezeAt(text, i, end);
      if end - i >= 2 {
        kept := kept + " ";
        out[written] := ' ';
        i := end;
      } else {
        kept := kept + [text[i]];
        out[written] := out[i];
        i := i + 1;
      }
      written := written + 1;
    }
    SqueezeNothing(text[i..]);
    assert kept + "" == kept;
    out[written] := NUL;
  }

  lemma SqueezeNothing(s: string)
    requires s == ""
    ensures Squeeze(s) == ""
  {
  }

  lemma SqueezeAt(text: string, i: nat, end: nat)
    requires i < |text| && end == i + BlankRun(text[i..])
    ensures end - i >= 2 ==> Squeeze(text[i..]) == " " + Squeeze(text[end..])
    ensures end - i < 2 ==> Squeeze(text[i..]) == [text[i]] + Squeeze(text[i + 1..])
  {
    assert text[i..][end - i..] == text[end..];
    assert text[i..][1..] == text[i + 1..];
  }

  lemma StripLeftAt(text: string, begin: nat)
    requires begin < |text| && IsEdge(text[begin])
    ensures StripLeft(text[begin..]) == StripLeft(text[begin + 1..])
  {
    assert text[begin..][1..] == text[begin + 1..];
  }

  lemma StripRightAt(text: string, begin: nat, written: nat)
    requires begin < written <= |text| && IsEdge(text[written - 1])
    ensures StripRight(text[begin..written]) == StripRight(text[begin..written - 1])
  {
    assert text[begin..written][..written - begin - 1] == text[begin..written - 1];
  }

  /** Where the text begins and ends without the spaces and commas around it. */
  method Ends(out: array<char>, ghost text: string, length: nat) returns (begin: nat, written: nat)
    requires Holds(out, text) && length == |text|
    ensures begin <= written <= |text| && text[begin..written] == StripRight(StripLeft(text))
  {
    begin, written := 0, length;
    assert text[0..] == text;
    while IsEdge(out[begin])
      invariant begin <= |text| && StripLeft(text[begin..]) == StripLeft(text)
      invariant begin < |text| ==> out[begin] == text[begin]
      decreases |text| - begin
    {
      StripLeftAt(text, begin);
      begin := begin + 1;
    }
    assert StripLeft(text) == text[begin..];
    assert text[begin..written] == text[begin..];
    while written > begin && IsEdge(out[written - 1])
      invariant begin <= written <= |text|
      invariant StripRight(text[begin..written]) == StripRight(StripLeft(text))
    {
      assert out[written - 1] == text[written - 1];
      StripRightAt(text, begin, written);
      written := written - 1;
    }
    RightEnd(out, text, begin, written);
  }

  lemma RightEnd(out: array<char>, text: string, begin: nat, written: nat)
    requires Holds(out, text) && begin <= written <= |text| && !(written > begin && IsEdge(out[written - 1]))
    ensures StripRight(text[begin..written]) == text[begin..written]
  {
    if begin < written {
      assert out[written - 1] == text[written - 1];
    }
  }

  /** Strips spaces and commas from both ends. */
  method StripAll(out: array<char>, ghost text: string, length: nat) returns (n: nat)
    requires Holds(out, text) && length == |text|
    modifies out
    ensures Holds(out, StripRight(StripLeft(text))) && n == |StripRight(StripLeft(text))|
  {
    hide StripRight, StripLeft;
    var begin, written := Ends(out, text, length);
    n := written - begin;
    HeldSlice(out, text, begin, written);
    MoveDown(out, text[begin..written], begin, n);
  }

  /** Moves a stretch of the buffer to its front and ends it there. */
  method MoveDown(out: array<char>, ghost kept: string, begin: nat, n: nat)
    requires n == |kept| && begin + n < out.Length && forall k :: 0 <= k < n ==> out[begin + k] == kept[k] != NUL
    modifies out
    ensures Holds(out, kept)
  {
    Move(out, 0, begin, n);
    out[n] := NUL;
    assert forall k :: 0 <= k < n ==> out[k] == kept[k];
  }

  // -------------------------------------------------------------------------------- the renderer

  datatype Outcome = Length(n: nat) | NoMemory | Invalid

  method Render(pattern: string, slots: seq<Slot>, out: array<char>) returns (r: Outcome)
    requires NUL !in pattern && Texts(slots)
    modifies out
    ensures r.Invalid? <==> out.Length == 0
    ensures r.NoMemory? <==>
      out.Length > 0 && (|pattern| >= out.Length || |pattern| > INT_MAX || |Speak(pattern, slots)| > INT_MAX
                         || Overflows(0, Collapse(DropOptions(pattern)), slots, out.Length))
    ensures r.Length? ==> Holds(out, Speak(pattern, slots)) && r.n == |Speak(pattern, slots)|
  {
    if out.Length == 0 {
      return Invalid;
    }
    if |pattern| >= out.Length || |pattern| > INT_MAX {
      return NoMemory;
    }
    forall k | 0 <= k <= |pattern| {
      out[k] := if k < |pattern| then pattern[k] else NUL;
    }
    assert out[..|pattern|] == pattern;
    DropAll(out, pattern);
    CollapseAll(out, DropOptions(pattern));
    var ok := FillAll(out, Collapse(DropOptions(pattern)), slots);
    FillFitsIff("", Collapse(DropOptions(pattern)), slots, out.Length);
    if !ok {
      return NoMemory;
    }
    ghost var filled := Fill(Collapse(DropOptions(pattern)), slots);
    var written := SqueezeAll(out, filled);
    var n := StripAll(out, Squeeze(filled), written);
    return if n > INT_MAX then NoMemory else Length(n);
  }
}
