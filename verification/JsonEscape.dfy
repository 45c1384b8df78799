/** String literals: what the serializers append, what the tokenizer accepts, and what unescaping gives back. */
module JsonEscape {
  import opened Status
  import opened Octets
  import opened JsonText
  import opened JsonTree
  import opened JsonPrint
  import opened JsonGrammar

  // --------------------------------------------------------------------------------------- escaping

  /** The bytes appended for one byte of text. */
  function EscapeByte(c: char): string {
    if c == '"' then "\\\"" else if c == '\\' then "\\\\"
    else if c == 8 as char then "\\b" else if c == 12 as char then "\\f"
    else if c == '\n' then "\\n" else if c == '\r' then "\\r" else if c == '\t' then "\\t"
    else if c < ' ' then "\\u00" + [HexDigit(c as int / 16), HexDigit(c as int % 16)]
    else [c]
  }

  function EscapeAll(text: string): string {
    if text == "" then "" else EscapeByte(text[0]) + EscapeAll(text[1..])
  }

  function Literal(text: string): string {
    "\"" + EscapeAll(text) + "\""
  }

  lemma {:induction false} EscapeSnoc(text: string, c: char)
    ensures EscapeAll(text + [c]) == EscapeAll(text) + EscapeByte(c)
  {
    if text == "" {
      assert [c][1..] == "";
      assert EscapeAll([c]) == EscapeByte(c) + EscapeAll("");
    } else {
      assert (text + [c])[1..] == text[1..] + [c];
      EscapeSnoc(text[1..], c);
    }
  }

  /** Appends a piece and a terminating zero byte, if both fit. */
  method Append(out: array<char>, pos: nat, piece: string) returns (rc: int, end: nat)
    requires pos <= out.Length
    modifies out
    ensures rc == if pos + |piece| + 1 <= out.Length then 0 else ERR_NOMEM
    ensures rc == 0 ==> end == pos + |piece| && out[..end] == old(out[..pos]) + piece && out[end] == '\0'
    ensures rc != 0 ==> end == pos && out[..] == old(out[..])
  {
    if pos + |piece| + 1 > out.Length {
      return ERR_NOMEM, pos;
    }
    var i := 0;
    while i < |piece|
      invariant 0 <= i <= |piece|
      invariant out[..pos + i] == old(out[..pos]) + piece[..i]
    {
      out[pos + i] := piece[i];
      i := i + 1;
    }
    out[pos + |piece|] := '\0';
    return 0, pos + |piece|;
  }

  /** Appends a text, zero bytes and all, as a JSON string literal. */
  method AppendJsonRange(out: array<char>, pos: nat, text: string) returns (rc: int, end: nat)
    requires pos <= out.Length
    modifies out
    ensures rc == if pos + |Literal(text)| + 1 <= out.Length then 0 else ERR_NOMEM
    ensures rc == 0 ==> end == pos + |Literal(text)| && out[..end] == old(out[..pos]) + Literal(text)
  {
    hide EscapeByte, EscapeAll;
    ghost var before := out[..pos];
    rc, end := Append(out, pos, "\"");
    if rc != 0 {
      return;
    }
    assert EscapeAll(text[..0]) == "" by { EscapeNone(); }
    var i := 0;
    while i < |text|
      invariant 0 <= i <= |text| && end <= out.Length
      invariant rc == 0 && end == pos + 1 + |EscapeAll(text[..i])|
      invariant out[..end] == before + "\"" + EscapeAll(text[..i])
    {
      ghost var sofar := out[..end];
      rc, end := Append(out, end, EscapeByte(text[i]));
      assert text[..i + 1] == text[..i] + [text[i]];
      EscapeSnoc(text[..i], text[i]);
      if rc != 0 {
        EscapeGrows(text, i + 1);
        return;
      }
      assert out[..end] == before + "\"" + (EscapeAll(text[..i]) + EscapeByte(text[i]));
      i := i + 1;
    }
    assert text[..|text|] == text;
    rc, end := Append(out, end, "\"");
  }

  lemma {:induction false} EscapeConcat(a: string, b: string)
    ensures EscapeAll(a + b) == EscapeAll(a) + EscapeAll(b)
  {
    if a == "" {
      assert a + b == b;
    } else {
      assert (a + b)[1..] == a[1..] + b;
      EscapeConcat(a[1..], b);
    }
  }

  lemma EscapeNone()
    ensures EscapeAll("") == ""
  {
  }

  lemma EscapeGrows(text: string, n: nat)
    requires n <= |text|
    ensures |EscapeAll(text[..n])| <= |EscapeAll(text)|
  {
    EscapeConcat(text[..n], text[n..]);
    assert text[..n] + text[n..] == text;
  }

  // ------------------------------------------------------------------------------------- unescaping

  function HexValue(c: char): (v: nat)
    ensures v < 16
  {
    if '0' <= c <= '9' then c as int - '0' as int
    else if 'a' <= c <= 'f' then c as int - 'a' as int + 10
    else if 'A' <= c <= 'F' then c as int - 'A' as int + 10
    else 0
  }

  function CodeUnit(t: string, i: nat): (v: nat)
    requires i + 4 <= |t|
    ensures v < 0x1_0000
  {
    HexValue(t[i]) * 4096 + HexValue(t[i + 1]) * 256 + HexValue(t[i + 2]) * 16 + HexValue(t[i + 3])
  }

  function Byte(n: nat): char
    requires n < 256
  {
    n as char
  }

  function Utf8(cp: nat): (s: string)
    requires cp < 0x11_0000
    ensures 1 <= |s| <= 4
  {
    if cp < 0x80 then [Byte(cp)]
    else if cp < 0x800 then [Byte(0xc0 + cp / 64), Byte(0x80 + cp % 64)]
    else if cp < 0x1_0000 then [Byte(0xe0 + cp / 4096), Byte(0x80 + cp / 64 % 64), Byte(0x80 + cp % 64)]
    else [Byte(0xf0 + cp / 0x4_0000), Byte(0x80 + cp / 4096 % 64), Byte(0x80 + cp / 64 % 64), Byte(0x80 + cp % 64)]
  }

  /** The plain byte behind a one-letter escape; zero for a letter that is none. */
  function PlainEscape(c: char): char {
    if c == '"' || c == '\\' || c == '/' then c
    else if c == 'b' then 8 as char else if c == 'f' then 12 as char
    else if c == 'n' then '\n' else if c == 'r' then '\r' else if c == 't' then '\t'
    else '\0'
  }

  /** One step of decoding: the bytes it gives and the offset behind it; or a refusal. */
  datatype Step = NoStep | Step(bytes: string, next: nat)

  function DecodeStep(t: string, i: nat, end: nat): (r: Step)
    requires i < end < |t| && StringEnd(t, i) == CloseAt(end)
    ensures r.Step? ==> i < r.next <= end && r.bytes != ""
  {
    if t[i] != '\\' then Step([t[i]], i + 1)
    else if t[i + 1] == 'u' then
      var cp := CodeUnit(t, i + 2);
      if 0xd800 <= cp <= 0xdbff && i + 12 <= end && t[i + 6] == '\\' && t[i + 7] == 'u' then
        var low := CodeUnit(t, i + 8);
        if 0xdc00 <= low <= 0xdfff then Step(Utf8(0x1_0000 + (cp - 0xd800) * 1024 + (low - 0xdc00)), i + 12)
        else Step(Utf8(cp), i + 6)
      else Step(Utf8(cp), i + 6)
    else if t[i + 1] == '\0' then NoStep
    else Step([PlainEscape(t[i + 1])], i + 2)
  }

  /** Decoding stays inside a body the tokenizer accepted. */
  lemma StepStays(t: string, i: nat, end: nat)
    requires i < end < |t| && StringEnd(t, i) == CloseAt(end) && DecodeStep(t, i, end).Step?
    ensures StringEnd(t, DecodeStep(t, i, end).next) == CloseAt(end)
  {
    if t[i] == '\\' && t[i + 1] == 'u' {
      assert StringEnd(t, i) == StringEnd(t, i + 6);
      if i + 12 <= end && t[i + 6] == '\\' && t[i + 7] == 'u' {
        assert StringEnd(t, i + 6) == StringEnd(t, i + 12);
      }
    }
  }

  /** The decoded text, or the error code. */
  datatype Decoded = Fault(rc: int) | Text(bytes: string)

  /** Decoding from i on into a buffer with `room` bytes left, the terminating zero byte included. */
  function Unescape(t: string, i: nat, end: nat, room: nat): (r: Decoded)
    requires i <= end < |t| && StringEnd(t, i) == CloseAt(end)
    ensures r.Text? ==> room > 0 ==> |r.bytes| < room
    decreases end - i
  {
    if i == end then Text("")
    else
      match DecodeStep(t, i, end)
      case NoStep => Fault(ERR_JSON)
      case Step(bytes, next) =>
        StepStays(t, i, end);
        if |bytes| >= room then Fault(ERR_NOMEM)
        else
          match Unescape(t, next, end, room - |bytes|)
          case Fault(rc) => Fault(rc)
          case Text(rest) => Text(bytes + rest)
  }

  /** One turn of the loop: an escape or a plain byte, decoded behind the `pos` bytes there are. */
  method DecodeInto(t: string, i: nat, end: nat, out: array<char>, pos: nat) returns (rc: int, next: nat, grown: nat)
    requires i < end < |t| && StringEnd(t, i) == CloseAt(end) && pos < out.Length
    modifies out
    ensures rc == 0 ==> i < next <= end && StringEnd(t, next) == CloseAt(end) && pos <= grown < out.Length
    ensures Prefixed(old(out[..pos]), Unescape(t, i, end, out.Length - pos)) ==
            if rc != 0 then Fault(rc) else Prefixed(out[..grown], Unescape(t, next, end, out.Length - grown))
  {
    hide DecodeStep, StringEnd, Unescape, Prefixed;
    next, grown := i, pos;
    UnescapeTurn(t, i, end, out.Length - pos, out[..pos]);
    var step := DecodeStep(t, i, end);
    if step.NoStep? {
      return ERR_JSON, next, grown;
    }
    if pos + |step.bytes| >= out.Length {
      return ERR_NOMEM, next, grown;
    }
    Put(out, pos, step.bytes);
    return 0, step.next, pos + |step.bytes|;
  }

  method UnescapeAt(t: string, start: nat, end: nat, out: array<char>) returns (rc: int)
    requires start <= end < |t| && StringEnd(t, start) == CloseAt(end)
    modifies out
    ensures out.Length == 0 ==> rc == ERR_INVALID
    ensures out.Length > 0 ==>
              match Unescape(t, start, end, out.Length)
              case Fault(code) => rc == code
              case Text(bytes) => rc == |bytes| < out.Length && out[..rc] == bytes && out[rc] == '\0'
  {
    if out.Length == 0 {
      return ERR_INVALID;
    }
    hide DecodeStep, StringEnd, Unescape, Prefixed;
    var i, pos: nat := start, 0;
    ghost var whole := Unescape(t, start, end, out.Length);
    PrefixedNone(whole);
    while i < end
      invariant start <= i <= end && StringEnd(t, i) == CloseAt(end) && 0 <= pos < out.Length
      invariant whole == Prefixed(out[..pos], Unescape(t, i, end, out.Length - pos))
      decreases end - i
    {
      rc, i, pos := DecodeInto(t, i, end, out, pos);
      if rc != 0 {
        return;
      }
    }
    UnescapeEnds(t, end, out.Length - pos, out[..pos]);
    out[pos] := '\0';
    return pos;
  }

  ghost function Prefixed(a: string, r: Decoded): Decoded {
    match r
    case Fault(rc) => Fault(rc)
    case Text(b) => Text(a + b)
  }

  lemma PrefixedNone(r: Decoded)
    ensures Prefixed("", r) == r
  {
  }

  lemma PrefixedFault(a: string, rc: int)
    ensures Prefixed(a, Fault(rc)) == Fault(rc)
  {
  }

  lemma UnescapeUnfold(t: string, i: nat, end: nat, room: nat)
    requires i < end < |t| && StringEnd(t, i) == CloseAt(end)
    ensures match DecodeStep(t, i, end)
            case NoStep => Unescape(t, i, end, room) == Fault(ERR_JSON)
            case Step(bytes, next) =>
              && StringEnd(t, next) == CloseAt(end)
              && Unescape(t, i, end, room)
                   == if |bytes| >= room then Fault(ERR_NOMEM) else Prefixed(bytes, Unescape(t, next, end, room - |bytes|))
  {
    hide StringEnd, DecodeStep;
    if DecodeStep(t, i, end).Step? {
      StepStays(t, i, end);
    }
  }

  /** One turn of the loop, behind the text decoded so far. */
  lemma UnescapeTurn(t: string, i: nat, end: nat, room: nat, a: string)
    requires i < end < |t| && StringEnd(t, i) == CloseAt(end)
    ensures match DecodeStep(t, i, end)
            case NoStep => Prefixed(a, Unescape(t, i, end, room)) == Fault(ERR_JSON)
            case Step(bytes, next) =>
              && StringEnd(t, next) == CloseAt(end)
              && Prefixed(a, Unescape(t, i, end, room)) ==
                 if |bytes| >= room then Fault(ERR_NOMEM) else Prefixed(a + bytes, Unescape(t, next, end, room - |bytes|))
  {
    hide DecodeStep, StringEnd, Unescape, Prefixed;
    UnescapeUnfold(t, i, end, room);
    match DecodeStep(t, i, end)
    case NoStep => PrefixedFault(a, ERR_JSON);
    case Step(bytes, next) =>
      PrefixedFault(a, ERR_NOMEM);
      if |bytes| < room {
        PrefixedTwice(a, bytes, Unescape(t, next, end, room - |bytes|));
      }
  }

  lemma UnescapeEnds(t: string, end: nat, room: nat, a: string)
    requires end < |t| && StringEnd(t, end) == CloseAt(end)
    ensures Prefixed(a, Unescape(t, end, end, room)) == Text(a)
  {
    assert a + "" == a;
  }

  lemma PrefixedTwice(a: string, b: string, r: Decoded)
    ensures Prefixed(a, Prefixed(b, r)) == Prefixed(a + b, r)
  {
    if r.Text? { assert a + (b + r.bytes) == a + b + r.bytes; }
  }

  method Put(out: array<char>, pos: nat, piece: string)
    requires pos + |piece| <= out.Length
    modifies out
    ensures out[..pos + |piece|] == old(out[..pos]) + piece
  {
    var i := 0;
    while i < |piece|
      invariant 0 <= i <= |piece|
      invariant out[..pos + i] == old(out[..pos]) + piece[..i]
    {
      out[pos + i] := piece[i];
      i := i + 1;
    }
  }

  // ------------------------------------------------------------------------------------ round trips

  lemma HexReadsBack(n: nat)
    requires n < 16
    ensures IsHex(HexDigit(n)) && HexValue(HexDigit(n)) == n
  {
  }

  /** An escaped byte is one step of the tokenizer's string scan. */
  lemma EscapedByteScans(t: string, i: nat, c: char)
    requires At(t, i, EscapeByte(c)) && i + |EscapeByte(c)| < |t|
    ensures StringEnd(t, i) == StringEnd(t, i + |EscapeByte(c)|)
  {
    hide HexDigit;
    var e := EscapeByte(c);
    AtChar(t, i, e, 0);
    if e[0] == '\\' {
      AtChar(t, i, e, 1);
      if e[1] == 'u' {
        AtChar(t, i, e, 2); AtChar(t, i, e, 3); AtChar(t, i, e, 4); AtChar(t, i, e, 5);
        HexReadsBack(c as int / 16);
        HexReadsBack(c as int % 16);
      }
    }
  }

  /** An escaped byte decodes, in one step, to the byte. */
  lemma EscapedByteDecodes(t: string, i: nat, c: char, end: nat)
    requires At(t, i, EscapeByte(c)) && i + |EscapeByte(c)| <= end < |t| && StringEnd(t, i) == CloseAt(end)
    ensures DecodeStep(t, i, end) == Step([c], i + |EscapeByte(c)|)
  {
    hide HexDigit, IsHex, StringEnd;
    var e := EscapeByte(c);
    AtChar(t, i, e, 0);
    if e[0] == '\\' {
      AtChar(t, i, e, 1);
      if e[1] == 'u' {
        AtChar(t, i, e, 2); AtChar(t, i, e, 3); AtChar(t, i, e, 4); AtChar(t, i, e, 5);
        HexReadsBack(c as int / 16);
        HexReadsBack(c as int % 16);
        assert CodeUnit(t, i + 2) == c as int;
      }
    }
  }

  lemma {:induction false} EscapedScans(t: string, i: nat, text: string)
    requires At(t, i, EscapeAll(text)) && i + |EscapeAll(text)| < |t| && t[i + |EscapeAll(text)|] == '"'
    ensures StringEnd(t, i) == CloseAt(i + |EscapeAll(text)|)
    decreases |text|
  {
    hide EscapeByte, StringEnd, At;
    if text == "" {
      ClosedHere(t, i);
    } else {
      AtSplit(t, i, EscapeByte(text[0]), EscapeAll(text[1..]));
      EscapedByteScans(t, i, text[0]);
      EscapedScans(t, i + |EscapeByte(text[0])|, text[1..]);
    }
  }

  lemma ClosedHere(t: string, i: nat)
    requires i < |t| && t[i] == '"'
    ensures StringEnd(t, i) == CloseAt(i)
  {
  }

  /** Whatever the text, its literal's body is one the tokenizer accepts. */
  lemma EscapedIsBody(text: string)
    ensures IsBody(EscapeAll(text))
  {
    AtEnds(EscapeAll(text), "\"");
    EscapedScans(EscapeAll(text) + "\"", 0, text);
    BodyIff(EscapeAll(text));
  }

  lemma {:induction false} EscapedDecodes(t: string, i: nat, text: string, room: nat)
    requires At(t, i, EscapeAll(text)) && i + |EscapeAll(text)| < |t| && t[i + |EscapeAll(text)|] == '"'
    ensures var end := i + |EscapeAll(text)|;
            && StringEnd(t, i) == CloseAt(end)
            && (room > 0 ==> Unescape(t, i, end, room) == if |text| < room then Text(text) else Fault(ERR_NOMEM))
    decreases |text|
  {
    hide StringEnd, DecodeStep, EscapeByte, At;
    EscapedScans(t, i, text);
    if text != "" {
      var c, end := text[0], i + |EscapeAll(text)|;
      AtSplit(t, i, EscapeByte(c), EscapeAll(text[1..]));
      EscapedByteDecodes(t, i, c, end);
      if room > 1 {
        EscapedDecodes(t, i + |EscapeByte(c)|, text[1..], room - 1);
        assert [c] + text[1..] == text;
      } else {
        EscapedScans(t, i + |EscapeByte(c)|, text[1..]);
      }
    }
  }

  /**
   * A literal anywhere in a text is one string token, and unescaping it gives the original text, exactly when the
   * buffer has room for it and its terminator.
   */
  lemma LiteralRoundTrip(t: string, k: nat, text: string, room: nat)
    requires At(t, k, Literal(text)) && room > 0
    ensures var start, end := k + 1, k + 1 + |EscapeAll(text)|;
            && end < |t| && ParseString(t, k, 1) == Good(Node(String, start, end, []), end + 1)
            && Unescape(t, start, end, room) == if |text| < room then Text(text) else Fault(ERR_NOMEM)
  {
    hide EscapeAll, StringEnd, Unescape, At;
    var e := EscapeAll(text);
    AtSplit(t, k, "\"" + e, "\"");
    AtSplit(t, k, "\"", e);
    AtChar(t, k + 1 + |e|, "\"", 0);
    EscapedDecodes(t, k + 1, text, room);
  }

  // ---------------------------------------------------------------------- what unescaping can refuse

  /**
   * With a buffer longer than the body, a string the tokenizer accepted unescapes exactly when there is no zero byte
   * in it: the only place for one is behind a backslash.
   */
  lemma {:induction false} UnescapeSucceedsIff(t: string, i: nat, end: nat, room: nat)
    requires i <= end < |t| && StringEnd(t, i) == CloseAt(end) && room > end - i
    ensures Unescape(t, i, end, room).Text? <==> '\0' !in t[i..end]
    ensures Unescape(t, i, end, room).Fault? ==> Unescape(t, i, end, room).rc == ERR_JSON
    decreases end - i
  {
    hide DecodeStep, StringEnd;
    if i < end {
      ZeroStops(t, i, end);
      var step := DecodeStep(t, i, end);
      if step.Step? {
        StepStays(t, i, end);
        StepShrinks(t, i, end);
        UnescapeSucceedsIff(t, step.next, end, room - |step.bytes|);
        assert t[i..end] == t[i..step.next] + t[step.next..end];
      }
    }
  }

  /** With a shorter buffer, what is left to fit is the decoded text and its terminator. */
  lemma {:induction false} UnescapeFitsIff(t: string, i: nat, end: nat, room: nat)
    requires i <= end < |t| && StringEnd(t, i) == CloseAt(end) && room > 0
    ensures var whole := Unescape(t, i, end, end - i + 1);
            && (whole.Text? ==> Unescape(t, i, end, room) == if |whole.bytes| < room then whole else Fault(ERR_NOMEM))
            && (whole.Fault? ==> Unescape(t, i, end, room).Fault?)
    decreases end - i
  {
    hide DecodeStep, StringEnd;
    if i < end {
      var step := DecodeStep(t, i, end);
      if step.Step? {
        StepStays(t, i, end);
        StepShrinks(t, i, end);
        UnescapeFitsIff(t, step.next, end, end - i + 1 - |step.bytes|);
        if |step.bytes| < room {
          UnescapeFitsIff(t, step.next, end, room - |step.bytes|);
        }
      }
    }
  }

  /** A step refuses a zero byte behind a backslash and goes over none. */
  lemma ZeroStops(t: string, i: nat, end: nat)
    requires i < end < |t| && StringEnd(t, i) == CloseAt(end)
    ensures DecodeStep(t, i, end).NoStep? ==> '\0' in t[i..end]
    ensures DecodeStep(t, i, end).Step? ==> '\0' !in t[i..DecodeStep(t, i, end).next]
  {
    var step := DecodeStep(t, i, end);
    if step.NoStep? {
      assert t[i..end][1] == '\0';
    } else if t[i] == '\\' && t[i + 1] == 'u' {
      HexHasNoZero(t, i);
      if step.next == i + 12 {
        assert StringEnd(t, i) == StringEnd(t, i + 6);
        HexHasNoZero(t, i + 6);
        assert t[i..i + 12] == t[i..i + 6] + t[i + 6..i + 12];
      }
    }
  }

  lemma HexHasNoZero(t: string, i: nat)
    requires i + 1 < |t| && StringEnd(t, i).CloseAt? && t[i] == '\\' && t[i + 1] == 'u'
    ensures i + 6 <= |t| && '\0' !in t[i..i + 6]
  {
    assert t[i..i + 6] == [t[i], t[i + 1], t[i + 2], t[i + 3], t[i + 4], t[i + 5]];
  }

  lemma StepShrinks(t: string, i: nat, end: nat)
    requires i < end < |t| && StringEnd(t, i) == CloseAt(end) && DecodeStep(t, i, end).Step?
    ensures var step := DecodeStep(t, i, end); |step.bytes| <= step.next - i
  {
  }

  /** Such a string exists: the tokenizer accepts it and unescaping refuses it. */
  lemma ZeroEscapeIsAccepted()
    ensures var t := "\"\\" + ['\0'] + "\"";
            && ParseDocument(t, 1).Accepted? && StringEnd(t, 1) == CloseAt(3)
            && Unescape(t, 1, 3, 100) == Fault(ERR_JSON)
  {
    var t := "\"\\" + ['\0'] + "\"";
    assert |t| == 4 && t[0] == '"' && t[1] == '\\' && t[2] == '\0' && t[3] == '"';
    assert StringEnd(t, 3) == CloseAt(3);
    assert SkipSpace(t, 0) == 0 && SkipSpace(t, 4) == 4;
  }
}
