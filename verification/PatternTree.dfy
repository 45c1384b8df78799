/**
 * What a pattern means, read as a tree: literal text, slots, optional parts and choices. A tree is rendered by
 * recursion, without any rewriting; the theorem at the end says that rewriting the printed tree gives the same sentence.
 */
module PatternTree {
  import opened Blanks
  import opened Speaking

  datatype Pattern =
    | End
    | Text(text: string, rest: Pattern)
    | Hole(name: string, rest: Pattern)
    | Option(body: Pattern, rest: Pattern)
    | Choice(offers: Offers, rest: Pattern)

  datatype Offers = Last(only: Pattern) | Or(first: Pattern, others: Offers)

  function Print(p: Pattern): string {
    match p
    case End => ""
    case Text(s, rest) => s + Print(rest)
    case Hole(n, rest) => "{" + n + "}" + Print(rest)
    case Option(b, rest) => "[" + Print(b) + "]" + Print(rest)
    case Choice(os, rest) => "(" + PrintOffers(os) + ")" + Print(rest)
  }

  function PrintOffers(os: Offers): string {
    match os
    case Last(p) => Print(p)
    case Or(p, others) => Print(p) + "|" + PrintOffers(others)
  }

  predicate IsPlain(c: char) {
    c !in "[](){}|"
  }

  predicate IsName(n: string) {
    n != "" && StartsName(n[0]) && forall i :: 0 <= i < |n| ==> InName(n[i])
  }

  /** Text is free of the characters that carry structure, and slots are named as the grammar asks. */
  predicate WellFormed(p: Pattern) {
    match p
    case End => true
    case Text(s, rest) => (forall i :: 0 <= i < |s| ==> IsPlain(s[i])) && WellFormed(rest)
    case Hole(n, rest) => IsName(n) && WellFormed(rest)
    case Option(b, rest) => WellFormed(b) && WellFormed(rest)
    case Choice(os, rest) => WellFormedOffers(os) && WellFormed(rest)
  }

  predicate WellFormedOffers(os: Offers) {
    match os
    case Last(p) => WellFormed(p)
    case Or(p, others) => WellFormed(p) && WellFormedOffers(others)
  }

  // -------------------------------------------------------------------------------- rendering by recursion

  /** What a rendering is made of: characters, and slots still to be filled. */
  datatype Piece = Char(c: char) | Named(name: string)

  predicate Blank(p: Piece) {
    p.Char? && IsBlank(p.c)
  }

  function Chars(s: string): (ps: seq<Piece>)
    ensures |ps| == |s| && forall i :: 0 <= i < |s| ==> ps[i] == Char(s[i])
  {
    seq(|s|, i requires 0 <= i < |s| => Char(s[i]))
  }

  function Front(ps: seq<Piece>): seq<Piece> {
    if ps != [] && Blank(ps[0]) then Front(ps[1..]) else ps
  }

  function Back(ps: seq<Piece>): seq<Piece> {
    if ps != [] && Blank(ps[|ps| - 1]) then Back(ps[..|ps| - 1]) else ps
  }

  function Core(ps: seq<Piece>): seq<Piece> {
    Back(Front(ps))
  }

  /** The alternatives that have something to say, trimmed. */
  function Worded(alts: seq<seq<Piece>>): seq<seq<Piece>> {
    if alts == [] then []
    else (if Core(alts[0]) == [] then [] else [Core(alts[0])]) + Worded(alts[1..])
  }

  /** A choice says its first worded alternative; one that can also be left out, next to a blank one, is left out. */
  function Pick(alts: seq<seq<Piece>>): seq<Piece> {
    var worded := Worded(alts);
    if worded == [] || (|worded| == 1 && |alts| > 1) then [] else worded[0]
  }

  function Render(p: Pattern): seq<Piece> {
    match p
    case End => []
    case Text(s, rest) => Chars(s) + Render(rest)
    case Hole(n, rest) => [Named(n)] + Render(rest)
    case Option(_, rest) => Render(rest)
    case Choice(os, rest) => Pick(RenderOffers(os)) + Render(rest)
  }

  function RenderOffers(os: Offers): (alts: seq<seq<Piece>>) {
    match os
    case Last(p) => [Render(p)]
    case Or(p, others) => [Render(p)] + RenderOffers(others)
  }

  /** Each slot is filled once, and what fills it is final. */
  function Output(ps: seq<Piece>, slots: seq<Slot>): string {
    if ps == [] then ""
    else (match ps[0] case Char(c) => [c] case Named(n) => Filling(slots, n)) + Output(ps[1..], slots)
  }

  // -------------------------------------------------------------------------------- pieces as text

  function PieceText(p: Piece): string {
    match p
    case Char(c) => [c]
    case Named(n) => "{" + n + "}"
  }

  function Flat(ps: seq<Piece>): string {
    if ps == [] then "" else PieceText(ps[0]) + Flat(ps[1..])
  }

  predicate Sound(ps: seq<Piece>) {
    forall i :: 0 <= i < |ps| ==> match ps[i] case Char(c) => IsPlain(c) case Named(n) => IsName(n)
  }

  /** No character of `t` carries group structure. */
  predicate Ungrouped(t: string) {
    forall i :: 0 <= i < |t| ==> t[i] !in "[]()|"
  }

  lemma {:induction false} FlatUngrouped(ps: seq<Piece>)
    requires Sound(ps)
    ensures Ungrouped(Flat(ps))
  {
    if ps != [] {
      FlatUngrouped(ps[1..]);
      assert Ungrouped(PieceText(ps[0]));
    }
  }

  lemma {:induction false} FlatJoin(a: seq<Piece>, b: seq<Piece>)
    ensures Flat(a + b) == Flat(a) + Flat(b)
  {
    if a == [] {
      assert a + b == b;
    } else {
      hide PieceText;
      var head, tail := PieceText(a[0]), a[1..];
      assert (a + b)[1..] == tail + b;
      assert Flat(a + b) == head + Flat(tail + b);
      FlatJoin(tail, b);
      assert head + (Flat(tail) + Flat(b)) == (head + Flat(tail)) + Flat(b);
    }
  }

  lemma {:induction false} FlatChars(s: string)
    ensures Flat(Chars(s)) == s
  {
    if s != "" {
      FlatChars(s[1..]);
      assert Chars(s)[1..] == Chars(s[1..]);
      assert s == [s[0]] + s[1..];
    }
  }

  lemma {:induction false} FlatFront(ps: seq<Piece>)
    requires Sound(ps)
    ensures TrimLeft(Flat(ps)) == Flat(Front(ps)) && Sound(Front(ps))
  {
    if ps != [] && Blank(ps[0]) {
      FlatFront(ps[1..]);
      assert Flat(ps)[1..] == Flat(ps[1..]);
    }
  }

  lemma FlatNothing()
    ensures Flat([]) == ""
  {
  }

  lemma FlatOne(p: Piece)
    ensures Flat([p]) == PieceText(p)
  {
    assert PieceText(p) + "" == PieceText(p);
  }

  lemma {:induction false} FlatBack(ps: seq<Piece>)
    requires Sound(ps)
    ensures TrimRight(Flat(ps)) == Flat(Back(ps)) && Sound(Back(ps))
  {
    if ps == [] {
      FlatNothing();
    } else {
      hide Flat, TrimRight;
      var most, last := ps[..|ps| - 1], ps[|ps| - 1];
      assert ps == most + [last];
      FlatJoin(most, [last]);
      FlatOne(last);
      TrimRightPiece(Flat(most), last);
      if Blank(last) {
        FlatBack(most);
      }
    }
  }

  /** Trimming looks at the last piece only: a blank goes, anything else stays. */
  lemma TrimRightPiece(s: string, p: Piece)
    ensures TrimRight(s + PieceText(p)) == if Blank(p) then TrimRight(s) else s + PieceText(p)
  {
    var t := s + PieceText(p);
    if p.Char? {
      assert t[..|t| - 1] == s;
    } else {
      assert t[|t| - 1] == '}';
    }
  }

  lemma FlatCore(ps: seq<Piece>)
    requires Sound(ps)
    ensures Trim(Flat(ps)) == Flat(Core(ps)) && Sound(Core(ps))
    ensures (Flat(Core(ps)) == "") == (Core(ps) == [])
  {
    FlatFront(ps);
    FlatBack(Front(ps));
  }

  function Flats(alts: seq<seq<Piece>>): (texts: seq<string>)
    ensures |texts| == |alts|
  {
    if alts == [] then [] else [Flat(alts[0])] + Flats(alts[1..])
  }

  predicate AllSound(alts: seq<seq<Piece>>) {
    forall i :: 0 <= i < |alts| ==> Sound(alts[i])
  }

  lemma {:induction false} WordedIsReal(alts: seq<seq<Piece>>)
    requires AllSound(alts)
    ensures Real(Flats(alts)) == |Worded(alts)| <= |alts| && AllSound(Worded(alts))
    ensures FirstReal(Flats(alts)) == if Worded(alts) == [] then "" else Flat(Worded(alts)[0])
  {
    hide Core, Trim, Flat, Real, FirstReal, Worded, Flats, Sound;
    if alts == [] {
      NoneWorded(alts);
    } else {
      FlatCore(alts[0]);
      WordedIsReal(alts[1..]);
      FlatsCons(alts);
      RealCons(Flat(alts[0]), Flats(alts[1..]));
      WordedCons(alts);
    }
  }

  lemma NoneWorded(alts: seq<seq<Piece>>)
    requires alts == []
    ensures Flats(alts) == [] && Worded(alts) == [] && Real([]) == 0 && FirstReal([]) == ""
  {
  }

  lemma FlatsCons(alts: seq<seq<Piece>>)
    requires alts != []
    ensures Flats(alts) == [Flat(alts[0])] + Flats(alts[1..])
  {
  }

  lemma RealCons(s: string, rest: seq<string>)
    ensures Real([s] + rest) == (if Trim(s) == "" then 0 else 1) + Real(rest)
    ensures FirstReal([s] + rest) == if Trim(s) != "" then Trim(s) else FirstReal(rest)
  {
    hide Trim;
    assert ([s] + rest)[1..] == rest;
  }

  lemma WordedCons(alts: seq<seq<Piece>>)
    requires alts != []
    ensures Worded(alts) == (if Core(alts[0]) == [] then [] else [Core(alts[0])]) + Worded(alts[1..])
  {
    hide Core;
  }

  lemma PickIsChoose(alts: seq<seq<Piece>>)
    requires AllSound(alts)
    ensures Choose(Flats(alts)) == Flat(Pick(alts)) && Sound(Pick(alts))
  {
    WordedIsReal(alts);
  }

  function Bars(texts: seq<string>): string
    requires texts != []
  {
    if |texts| == 1 then texts[0] else texts[0] + "|" + Bars(texts[1..])
  }

  lemma BarFound(t: string, i: nat, post: string)
    requires i <= |t| && Ungrouped(t) && (post != "" ==> post[0] == '|')
    ensures BarAt(t + post, i) == |t|
    decreases |t| - i
  {
    if i < |t| {
      BarFound(t, i + 1, post);
    }
  }

  lemma {:induction false} BarsSplit(texts: seq<string>)
    requires texts != [] && forall i :: 0 <= i < |texts| ==> Ungrouped(texts[i])
    ensures Alternatives(Bars(texts)) == texts
  {
    hide Alternatives, Ungrouped;
    if |texts| == 1 {
      OneAlternative(texts[0]);
    } else {
      BarsSplit(texts[1..]);
      NextAlternative(texts[0], Bars(texts[1..]));
      assert texts == [texts[0]] + texts[1..];
    }
  }

  lemma OneAlternative(a: string)
    requires Ungrouped(a)
    ensures Alternatives(a) == [a]
  {
    BarFound(a, 0, "");
    assert a + "" == a;
  }

  lemma NextAlternative(a: string, rest: string)
    requires Ungrouped(a)
    ensures Alternatives(a + "|" + rest) == [a] + Alternatives(rest)
  {
    var s := a + "|" + rest;
    assert s == a + ("|" + rest);
    BarFound(a, 0, "|" + rest);
    assert s[..|a|] == a && s[|a| + 1..] == rest;
  }

  lemma {:induction false} FlatsUngrouped(alts: seq<seq<Piece>>)
    requires AllSound(alts)
    ensures forall i :: 0 <= i < |alts| ==> Ungrouped(Flats(alts)[i])
  {
    if alts != [] {
      FlatUngrouped(alts[0]);
      FlatsUngrouped(alts[1..]);
    }
  }

  lemma {:induction false} BarsUngrouped(texts: seq<string>)
    requires texts != [] && forall i :: 0 <= i < |texts| ==> Ungrouped(texts[i])
    ensures '(' !in Bars(texts) && ')' !in Bars(texts)
  {
    if |texts| > 1 {
      BarsUngrouped(texts[1..]);
    }
  }

  // -------------------------------------------------------------------------------- finding a group

  lemma {:induction false} FoundInside(pre: string, mid: string, post: string, i: nat, open: int, o: char, c: char)
    requires o != c && |pre| < i <= |pre| + 1 + |mid| && o !in mid && c !in mid
    requires open == |pre|
    ensures var s := pre + [o] + mid + [c] + post; FindFrom(s, i, open, o, c) == Group(|pre|, |pre| + 1 + |mid|)
    decreases |mid| + |pre| - i
  {
    var s := pre + [o] + mid + [c] + post;
    if i < |pre| + 1 + |mid| {
      assert s[i] == mid[i - |pre| - 1];
      FoundInside(pre, mid, post, i + 1, open, o, c);
    } else {
      assert s[i] == c;
    }
  }

  lemma {:induction false} FoundFrom(pre: string, mid: string, post: string, i: nat, open: int, o: char, c: char)
    requires o != c && c !in pre && o !in mid && c !in mid
    requires -1 <= open < i <= |pre| && (open >= 0 ==> pre[open] == o)
    ensures var s := pre + [o] + mid + [c] + post; FindFrom(s, i, open, o, c) == Group(|pre|, |pre| + 1 + |mid|)
    decreases |pre| - i
  {
    var s := pre + [o] + mid + [c] + post;
    if i == |pre| {
      assert s[i] == o;
      FoundInside(pre, mid, post, i + 1, i, o, c);
    } else {
      assert s[i] == pre[i];
      FoundFrom(pre, mid, post, i + 1, if pre[i] == o then i else open, o, c);
    }
  }

  /** The first group closed is the innermost one with no closed group before it. */
  lemma Found(pre: string, mid: string, post: string, o: char, c: char)
    requires o != c && c !in pre && o !in mid && c !in mid
    ensures Find(pre + [o] + mid + [c] + post, o, c) == Group(|pre|, |pre| + 1 + |mid|)
  {
    FoundFrom(pre, mid, post, 0, -1, o, c);
  }

  lemma {:induction false} NotFoundFrom(s: string, i: nat, open: int, o: char, c: char)
    requires -1 <= open < i <= |s| && (open >= 0 ==> s[open] == o) && c !in s
    ensures FindFrom(s, i, open, o, c) == NoGroup
    decreases |s| - i
  {
    if i < |s| {
      NotFoundFrom(s, i + 1, if s[i] == o then i else open, o, c);
    }
  }

  /** Five pieces taken apart. */
  lemma Apart(pre: string, o: string, mid: string, c: string, post: string)
    requires |o| == |c| == 1
    ensures var s, end := pre + o + mid + c + post, |pre| + 1 + |mid|;
            s[..|pre|] == pre && s[|pre| + 1..end] == mid && s[end + 1..] == post
  {
  }

  lemma DropOne(pre: string, mid: string, post: string)
    requires ']' !in pre && '[' !in mid && ']' !in mid
    ensures DropOptions(pre + "[" + mid + "]" + post) == DropOptions(pre + post)
  {
    hide Find;
    Found(pre, mid, post, '[', ']');
    Apart(pre, "[", mid, "]", post);
  }

  lemma CollapseOne(pre: string, mid: string, post: string)
    requires ')' !in pre && '(' !in mid && ')' !in mid
    ensures Collapse(pre + "(" + mid + ")" + post) == Collapse(pre + Choose(Alternatives(mid)) + post)
  {
    hide Find, Choose, Alternatives;
    Found(pre, mid, post, '(', ')');
    Apart(pre, "(", mid, ")", post);
  }

  lemma NoOptions(s: string)
    requires ']' !in s
    ensures DropOptions(s) == s
  {
    NotFoundFrom(s, 0, -1, '[', ']');
  }

  lemma NoChoices(s: string)
    requires ')' !in s
    ensures Collapse(s) == s
  {
    NotFoundFrom(s, 0, -1, '(', ')');
  }

  // -------------------------------------------------------------------------------- options

  function Without(p: Pattern): Pattern {
    match p
    case End => End
    case Text(s, rest) => Text(s, Without(rest))
    case Hole(n, rest) => Hole(n, Without(rest))
    case Option(_, rest) => Without(rest)
    case Choice(os, rest) => Choice(OffersWithout(os), Without(rest))
  }

  function OffersWithout(os: Offers): Offers {
    match os
    case Last(p) => Last(Without(p))
    case Or(p, others) => Or(Without(p), OffersWithout(others))
  }

  lemma {:induction false} WithoutIsPlain(p: Pattern)
    requires WellFormed(p)
    ensures WellFormed(Without(p)) && '[' !in Print(Without(p)) && ']' !in Print(Without(p))
    ensures Render(Without(p)) == Render(p)
  {
    hide PrintOffers, WellFormedOffers, RenderOffers, OffersWithout;
    match p
    case End =>
    case Text(_, rest) => WithoutIsPlain(rest);
    case Hole(_, rest) => WithoutIsPlain(rest);
    case Option(_, rest) => WithoutIsPlain(rest);
    case Choice(os, rest) =>
      OffersWithoutIsPlain(os);
      WithoutIsPlain(rest);
  }

  lemma {:induction false} OffersWithoutIsPlain(os: Offers)
    requires WellFormedOffers(os)
    ensures WellFormedOffers(OffersWithout(os))
    ensures '[' !in PrintOffers(OffersWithout(os)) && ']' !in PrintOffers(OffersWithout(os))
    ensures RenderOffers(OffersWithout(os)) == RenderOffers(os)
  {
    match os
    case Last(p) => WithoutIsPlain(p);
    case Or(p, others) =>
      WithoutIsPlain(p);
      OffersWithoutIsPlain(others);
  }

  lemma Regroup(a: string, b: string, c: string, d: string)
    ensures a + (b + c) + d == (a + b) + c + d == a + b + (c + d)
  {
  }

  lemma Around(pre: string, a: string, mid: string, b: string, rest: string, post: string)
    ensures pre + (a + mid + b + rest) + post == (pre + a) + mid + (b + (rest + post))
    ensures pre + (a + mid + b + rest) + post == (pre + (a + mid + b)) + rest + post
    ensures (pre + a) + mid + (b + (rest + post)) == (pre + (a + mid + b)) + rest + post
    ensures (pre + a) + mid + (b + (rest + post)) == pre + a + mid + b + (rest + post)
  {
  }

  lemma {:induction false} OptionsDrop(pre: string, p: Pattern, post: string)
    requires ']' !in pre && WellFormed(p)
    ensures DropOptions(pre + Print(p) + post) == DropOptions(pre + Print(Without(p)) + post)
    decreases p
  {
    hide DropOptions;
    match p
    case End =>
    case Text(s, rest) =>
      OptionsDrop(pre + s, rest, post);
      Regroup(pre, s, Print(rest), post);
      Regroup(pre, s, Print(Without(rest)), post);
    case Hole(n, rest) =>
      var s := "{" + n + "}";
      OptionsDrop(pre + s, rest, post);
      Regroup(pre, s, Print(rest), post);
      Regroup(pre, s, Print(Without(rest)), post);
    case Option(b, rest) =>
      var bare := Print(Without(b));
      var more := Print(rest) + post;
      OptionsDrop(pre + "[", b, "]" + more);
      WithoutIsPlain(b);
      Around(pre, "[", Print(b), "]", Print(rest), post);
      Around(pre, "[", bare, "]", Print(rest), post);
      DropOne(pre, bare, more);
      OptionsDrop(pre, rest, post);
      assert pre + more == pre + Print(rest) + post;
    case Choice(os, rest) =>
      var bare := PrintOffers(OffersWithout(os));
      OfferOptionsDrop(pre + "(", os, ")" + (Print(rest) + post));
      OffersWithoutIsPlain(os);
      Around(pre, "(", PrintOffers(os), ")", Print(rest), post);
      Around(pre, "(", bare, ")", Print(rest), post);
      OptionsDrop(pre + ("(" + bare + ")"), rest, post);
      Around(pre, "(", bare, ")", Print(Without(rest)), post);
  }

  lemma {:induction false} OfferOptionsDrop(pre: string, os: Offers, post: string)
    requires ']' !in pre && WellFormedOffers(os)
    ensures DropOptions(pre + PrintOffers(os) + post) == DropOptions(pre + PrintOffers(OffersWithout(os)) + post)
    decreases os
  {
    hide DropOptions, Print, WellFormed, Render, Without;
    match os
    case Last(p) => OptionsDrop(pre, p, post);
    case Or(p, others) =>
      var more := "|" + PrintOffers(others) + post;
      var done := Print(Without(p)) + "|";
      OptionsDrop(pre, p, more);
      WithoutIsPlain(p);
      assert pre + PrintOffers(os) + post == pre + Print(p) + more;
      assert pre + Print(Without(p)) + more == (pre + done) + PrintOffers(others) + post;
      OfferOptionsDrop(pre + done, others, post);
      Regroup(pre, done, PrintOffers(OffersWithout(others)), post);
  }

  // -------------------------------------------------------------------------------- choices

  predicate Optionless(p: Pattern) {
    match p
    case End => true
    case Text(_, rest) => Optionless(rest)
    case Hole(_, rest) => Optionless(rest)
    case Option(_, _) => false
    case Choice(os, rest) => OptionlessOffers(os) && Optionless(rest)
  }

  predicate OptionlessOffers(os: Offers) {
    match os
    case Last(p) => Optionless(p)
    case Or(p, others) => Optionless(p) && OptionlessOffers(others)
  }

  lemma {:induction false} WithoutOptionless(p: Pattern)
    ensures Optionless(Without(p))
  {
    match p
    case End =>
    case Text(_, rest) => WithoutOptionless(rest);
    case Hole(_, rest) => WithoutOptionless(rest);
    case Option(_, rest) => WithoutOptionless(rest);
    case Choice(os, rest) =>
      OffersWithoutOptionless(os);
      WithoutOptionless(rest);
  }

  lemma {:induction false} OffersWithoutOptionless(os: Offers)
    ensures OptionlessOffers(OffersWithout(os))
  {
    match os
    case Last(p) => WithoutOptionless(p);
    case Or(p, others) =>
      WithoutOptionless(p);
      OffersWithoutOptionless(others);
  }

  lemma SoundJoin(a: seq<Piece>, b: seq<Piece>)
    requires Sound(a) && Sound(b)
    ensures Sound(a + b)
  {
  }

  lemma {:induction false} RenderSound(p: Pattern)
    requires WellFormed(p)
    ensures Sound(Render(p))
  {
    match p
    case End =>
    case Text(s, rest) =>
      FlatChars(s);
      RenderSound(rest);
    case Hole(n, rest) => RenderSound(rest);
    case Option(_, rest) => RenderSound(rest);
    case Choice(os, rest) =>
      RenderOffersSound(os);
      PickIsChoose(RenderOffers(os));
      RenderSound(rest);
      SoundJoin(Pick(RenderOffers(os)), Render(rest));
  }

  lemma {:induction false} RenderOffersSound(os: Offers)
    requires WellFormedOffers(os)
    ensures AllSound(RenderOffers(os)) && RenderOffers(os) != []
  {
    match os
    case Last(p) => RenderSound(p);
    case Or(p, others) =>
      RenderSound(p);
      RenderOffersSound(others);
  }

  /** The text of rendered offers, between bars. */
  function Offered(os: Offers): string {
    match os
    case Last(p) => Flat(Render(p))
    case Or(p, others) => Flat(Render(p)) + "|" + Offered(others)
  }

  lemma {:induction false} OfferedIsBars(os: Offers)
    ensures RenderOffers(os) != [] && Offered(os) == Bars(Flats(RenderOffers(os)))
  {
    match os
    case Last(p) =>
    case Or(p, others) =>
      OfferedIsBars(others);
      assert Flats(RenderOffers(os)) == [Flat(Render(p))] + Flats(RenderOffers(others)) by {
        assert RenderOffers(os)[1..] == RenderOffers(others);
      }
      assert Flats(RenderOffers(os))[1..] == Flats(RenderOffers(others));
  }

  /** A group whose offers are rendered collapses to what the choice picks. */
  lemma OfferedChoose(os: Offers)
    requires WellFormedOffers(os)
    ensures '(' !in Offered(os) && ')' !in Offered(os)
    ensures Choose(Alternatives(Offered(os))) == Flat(Pick(RenderOffers(os)))
    ensures Sound(Pick(RenderOffers(os)))
  {
    RenderOffersSound(os);
    OfferedIsBars(os);
    FlatsUngrouped(RenderOffers(os));
    BarsUngrouped(Flats(RenderOffers(os)));
    BarsSplit(Flats(RenderOffers(os)));
    PickIsChoose(RenderOffers(os));
  }

  lemma {:induction false} ChoicesCollapse(pre: string, p: Pattern, post: string)
    requires ')' !in pre && WellFormed(p) && Optionless(p)
    ensures Collapse(pre + Print(p) + post) == Collapse(pre + Flat(Render(p)) + post)
    decreases p, 2
  {
    hide Collapse;
    match p
    case End =>
    case Text(s, rest) =>
      ChoicesCollapse(pre + s, rest, post);
      FlatChars(s);
      FlatJoin(Chars(s), Render(rest));
      Regroup(pre, s, Print(rest), post);
      Regroup(pre, s, Flat(Render(rest)), post);
    case Hole(n, rest) =>
      var s := "{" + n + "}";
      ChoicesCollapse(pre + s, rest, post);
      FlatJoin([Named(n)], Render(rest));
      Regroup(pre, s, Print(rest), post);
      Regroup(pre, s, Flat(Render(rest)), post);
    case Choice(os, rest) =>
      hide Pick, FirstReal, Alternatives, Choose;
      var picked := Flat(Pick(RenderOffers(os)));
      ChoiceCollapses(pre, os, Print(rest) + post);
      OfferedChoose(os);
      FlatUngrouped(Pick(RenderOffers(os)));
      Around(pre, "(", PrintOffers(os), ")", Print(rest), post);
      Regroup(pre, picked, Print(rest), post);
      ChoicesCollapse(pre + picked, rest, post);
      FlatJoin(Pick(RenderOffers(os)), Render(rest));
      Regroup(pre, picked, Flat(Render(rest)), post);
  }

  lemma {:induction false} ChoiceCollapses(pre: string, os: Offers, post: string)
    requires ')' !in pre && WellFormedOffers(os) && OptionlessOffers(os)
    ensures Collapse(pre + "(" + PrintOffers(os) + ")" + post) == Collapse(pre + Flat(Pick(RenderOffers(os))) + post)
    decreases os, 1
  {
    hide Collapse;
    OffersCollapse(pre + "(", os, ")" + post);
    OfferedChoose(os);
    assert pre + "(" + PrintOffers(os) + ")" + post == pre + "(" + PrintOffers(os) + (")" + post);
    assert pre + "(" + Offered(os) + ")" + post == pre + "(" + Offered(os) + (")" + post);
    CollapseOne(pre, Offered(os), post);
  }

  lemma {:induction false} OffersCollapse(pre: string, os: Offers, post: string)
    requires ')' !in pre && WellFormedOffers(os) && OptionlessOffers(os)
    ensures Collapse(pre + PrintOffers(os) + post) == Collapse(pre + Offered(os) + post)
    decreases os, 0
  {
    hide Collapse, Render, Flat, Pick, Print;
    match os
    case Last(p) => ChoicesCollapse(pre, p, post);
    case Or(p, others) =>
      var more := "|" + PrintOffers(others) + post;
      var done := Flat(Render(p)) + "|";
      ChoicesCollapse(pre, p, more);
      RenderSound(p);
      FlatUngrouped(Render(p));
      assert pre + PrintOffers(os) + post == pre + Print(p) + more;
      assert pre + Flat(Render(p)) + more == (pre + done) + PrintOffers(others) + post;
      OffersCollapse(pre + done, others, post);
      Regroup(pre, done, Offered(others), post);
  }

  // -------------------------------------------------------------------------------- slots

  lemma NameRead(n: string, post: string, i: nat)
    requires 1 <= i <= |n| + 1 && forall k :: 0 <= k < |n| ==> InName(n[k])
    ensures NameEnd("{" + n + "}" + post, i) == |n| + 1
    decreases |n| - i
  {
    var s := "{" + n + "}" + post;
    if i <= |n| {
      assert s[i] == n[i - 1];
      NameRead(n, post, i + 1);
    } else {
      assert s[i] == '}';
    }
  }

  lemma {:induction false} FlatFills(ps: seq<Piece>, slots: seq<Slot>)
    requires Sound(ps)
    ensures Fill(Flat(ps), slots) == Output(ps, slots)
  {
    if ps != [] {
      hide Fill, Filling;
      FlatFills(ps[1..], slots);
      var rest := Flat(ps[1..]);
      match ps[0]
      case Char(c) => FillChar(c, rest, slots);
      case Named(n) => FillName(n, rest, slots);
    } else {
      FillNothing(slots);
    }
  }

  lemma FillNothing(slots: seq<Slot>)
    ensures Fill("", slots) == ""
  {
  }

  lemma FillChar(c: char, rest: string, slots: seq<Slot>)
    requires c != '{'
    ensures Fill([c] + rest, slots) == [c] + Fill(rest, slots)
  {
    hide Filling;
    assert ([c] + rest)[1..] == rest;
  }

  lemma FillName(n: string, rest: string, slots: seq<Slot>)
    requires IsName(n)
    ensures Fill("{" + n + "}" + rest, slots) == Filling(slots, n) + Fill(rest, slots)
  {
    hide Filling, SlotLength;
    SlotLengthIs(n, rest);
    Apart("", "{", n, "}", rest);
    assert "{" + n + "}" + rest == "" + "{" + n + "}" + rest;
  }

  lemma SlotLengthIs(n: string, rest: string)
    requires IsName(n)
    ensures SlotLength("{" + n + "}" + rest) == |n| + 2
  {
    hide NameEnd;
    var s := "{" + n + "}" + rest;
    NameRead(n, rest, 1);
    assert s[0] == '{' && s[1] == n[0] && s[|n| + 1] == '}';
  }

  // -------------------------------------------------------------------------------- the theorem

  /** Rewriting a printed pattern, innermost group first, speaks what the tree's own rendering says. */
  lemma SpeakIsRender(p: Pattern, slots: seq<Slot>)
    requires WellFormed(p)
    ensures Speak(Print(p), slots) == Tidy(Output(Render(p), slots))
  {
    hide Tidy, Fill, Collapse, DropOptions, Render, Flat, Output;
    var bare, flat := Without(p), Flat(Render(p));
    OptionsDrop("", p, "");
    assert "" + Print(p) + "" == Print(p) && "" + Print(bare) + "" == Print(bare);
    WithoutIsPlain(p);
    NoOptions(Print(bare));
    WithoutOptionless(p);
    ChoicesCollapse("", bare, "");
    assert "" + flat + "" == flat;
    RenderSound(p);
    FlatUngrouped(Render(p));
    NoChoices(flat);
    FlatFills(Render(p), slots);
  }
}
