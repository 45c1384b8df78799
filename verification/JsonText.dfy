/**
 * The lexical layer of the JSON tokenizer: white space, string bodies and primitives. A text is a sequence of
 * bytes, written as characters; a length limit is a slice of the text.
 */
module JsonText {

  predicate IsSpace(c: char) {
    c == ' ' || c == '\t' || c == '\r' || c == '\n'
  }

  function SkipSpace(t: string, i: nat): (j: nat)
    requires i <= |t|
    ensures i <= j <= |t| && (j < |t| ==> !IsSpace(t[j]))
    ensures forall k :: i <= k < j ==> IsSpace(t[k])
    decreases |t| - i
  {
    if i < |t| && IsSpace(t[i]) then SkipSpace(t, i + 1) else i
  }

  predicate IsHex(c: char) {
    '0' <= c <= '9' || 'a' <= c <= 'f' || 'A' <= c <= 'F'
  }

  /** The byte after a backslash; a zero byte passes here, because the library's search matches its terminator. */
  predicate IsEscape(c: char) {
    c in "\"\\/bfnrt" || c == '\0'
  }

  /** The offset of the closing quote of a string whose body starts at i, or none when the body is malformed. */
  datatype Close = NoClose | CloseAt(pos: nat)

  function StringEnd(t: string, i: nat): (r: Close)
    requires i <= |t|
    ensures r.CloseAt? ==> i <= r.pos < |t| && t[r.pos] == '"'
    decreases |t| - i
  {
    if i == |t| then NoClose
    else if t[i] == '"' then CloseAt(i)
    else if t[i] < ' ' then NoClose
    else if t[i] != '\\' then StringEnd(t, i + 1)
    else if i + 1 >= |t| then NoClose
    else if t[i + 1] == 'u' then
      if i + 5 < |t| && IsHex(t[i + 2]) && IsHex(t[i + 3]) && IsHex(t[i + 4]) && IsHex(t[i + 5])
      then StringEnd(t, i + 6) else NoClose
    else if IsEscape(t[i + 1]) then StringEnd(t, i + 2)
    else NoClose
  }

  predicate EndsPrimitive(c: char) {
    IsSpace(c) || c == ',' || c == ']' || c == '}'
  }

  function PrimitiveEnd(t: string, i: nat): (j: nat)
    requires i <= |t|
    ensures i <= j <= |t| && (j < |t| ==> EndsPrimitive(t[j]))
    ensures forall k :: i <= k < j ==> !EndsPrimitive(t[k])
    decreases |t| - i
  {
    if i < |t| && !EndsPrimitive(t[i]) then PrimitiveEnd(t, i + 1) else i
  }

  predicate IsDigit(c: char) {
    '0' <= c <= '9'
  }

  function SkipDigits(s: string, i: nat): (j: nat)
    requires i <= |s|
    ensures i <= j <= |s| && (j < |s| ==> !IsDigit(s[j]))
    ensures forall k :: i <= k < j ==> IsDigit(s[k])
    decreases |s| - i
  {
    if i < |s| && IsDigit(s[i]) then SkipDigits(s, i + 1) else i
  }

  datatype Offset = Bad | Reached(pos: nat)

  /** RFC 8259, section 6: an optional minus sign, then zero alone or digits that do not start with zero. */
  function IntegerPart(s: string): (r: Offset)
    ensures r.Reached? ==> r.pos <= |s|
  {
    var i := if s != "" && s[0] == '-' then 1 else 0;
    if i >= |s| then Bad
    else if s[i] == '0' then Reached(i + 1)
    else if IsDigit(s[i]) then Reached(SkipDigits(s, i))
    else Bad
  }

  function Fraction(s: string, i: nat): (r: Offset)
    requires i <= |s|
    ensures r.Reached? ==> i <= r.pos <= |s|
  {
    if i < |s| && s[i] == '.' then
      var j := SkipDigits(s, i + 1);
      if j == i + 1 then Bad else Reached(j)
    else Reached(i)
  }

  function Exponent(s: string, i: nat): (r: Offset)
    requires i <= |s|
    ensures r.Reached? ==> i <= r.pos <= |s|
  {
    if i < |s| && (s[i] == 'e' || s[i] == 'E') then
      var k := if i + 1 < |s| && (s[i + 1] == '+' || s[i + 1] == '-') then i + 2 else i + 1;
      var j := SkipDigits(s, k);
      if j == k then Bad else Reached(j)
    else Reached(i)
  }

  predicate IsNumber(s: string) {
    var a := IntegerPart(s);
    a.Reached? &&
    var b := Fraction(s, a.pos);
    b.Reached? && Exponent(s, b.pos) == Reached(|s|)
  }

  predicate CheckPrimitive(s: string) {
    if s == "" then false
    else if s[0] == 't' || s[0] == 'f' || s[0] == 'n' then s == "true" || s == "false" || s == "null"
    else IsNumber(s)
  }

  /** Letters, digits, signs and points: no byte the bracket scanner reacts to. */
  predicate Plain(c: char) {
    c != '"' && c != '{' && c != '}' && c != '[' && c != ']' && c != ',' && !IsSpace(c)
  }

  predicate PlainTo(s: string, i: nat, j: nat) {
    forall k :: i <= k < j <= |s| ==> Plain(s[k])
  }

  lemma DigitsArePlain(s: string, i: nat)
    requires i <= |s|
    ensures PlainTo(s, i, SkipDigits(s, i))
  {
  }

  lemma IntegerIsPlain(s: string)
    requires IntegerPart(s).Reached?
    ensures PlainTo(s, 0, IntegerPart(s).pos)
  {
    hide SkipDigits;
    DigitsArePlain(s, if s[0] == '-' then 1 else 0);
  }

  lemma FractionIsPlain(s: string, i: nat)
    requires i <= |s| && Fraction(s, i).Reached?
    ensures PlainTo(s, i, Fraction(s, i).pos)
  {
    hide SkipDigits;
    if i < |s| { DigitsArePlain(s, i + 1); }
  }

  lemma ExponentIsPlain(s: string, i: nat)
    requires i <= |s| && Exponent(s, i).Reached?
    ensures PlainTo(s, i, Exponent(s, i).pos)
  {
    hide SkipDigits;
    if i < |s| { DigitsArePlain(s, i + 1); }
    if i + 2 <= |s| { DigitsArePlain(s, i + 2); }
  }

  lemma WordsArePlain()
    ensures PlainTo("true", 0, 4) && PlainTo("false", 0, 5) && PlainTo("null", 0, 4)
  {
  }

  lemma PrimitiveIsPlain(s: string)
    requires CheckPrimitive(s)
    ensures forall k :: 0 <= k < |s| ==> Plain(s[k])
  {
    hide IntegerPart, Fraction, Exponent, Plain;
    WordsArePlain();
    if IsNumber(s) {
      IntegerIsPlain(s);
      FractionIsPlain(s, IntegerPart(s).pos);
      ExponentIsPlain(s, Fraction(s, IntegerPart(s).pos).pos);
    }
  }
}
