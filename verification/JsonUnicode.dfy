/** The characters that escapes stand for: letters, code points in four digits, surrogate pairs, and their UTF-8 bytes. */
module JsonUnicode {
  import Arithmetic
  import opened Octets
  import opened JsonText
  import opened JsonEscape

  // ------------------------------------------------------------------------------------------- UTF-8

  /** A byte that carries six bits behind its marker. */
  predicate IsTail(c: char) {
    128 <= c as int < 192
  }

  /** RFC 3629, section 3: one to four bytes, and the bits they carry, the highest first. */
  predicate IsUtf8(s: string, cp: nat) {
    if cp < 0x80 then |s| == 1 && s[0] as int == cp
    else if cp < 0x800 then
      |s| == 2 && 192 <= s[0] as int < 224 && IsTail(s[1]) && cp == (s[0] as int - 192) * 64 + (s[1] as int - 128)
    else if cp < 0x1_0000 then
      |s| == 3 && 224 <= s[0] as int < 240 && IsTail(s[1]) && IsTail(s[2])
      && cp == (s[0] as int - 224) * 4096 + (s[1] as int - 128) * 64 + (s[2] as int - 128)
    else
      |s| == 4 && 240 <= s[0] as int < 248 && IsTail(s[1]) && IsTail(s[2]) && IsTail(s[3])
      && cp == (s[0] as int - 240) * 262144 + (s[1] as int - 128) * 4096 + (s[2] as int - 128) * 64 + (s[3] as int - 128)
  }

  lemma Utf8Is(cp: nat)
    requires cp < 0x11_0000
    ensures IsUtf8(Utf8(cp), cp)
  {
    Thirds(cp);
  }

  lemma Thirds(cp: nat)
    ensures cp / 64 == cp / 4096 * 64 + cp / 64 % 64 && cp / 4096 == cp / 0x4_0000 * 64 + cp / 4096 % 64
  {
    Arithmetic.DivideTwice(cp, 64, 64);
    Arithmetic.DivideTwice(cp, 4096, 64);
    Splits(cp / 64);
    Splits(cp / 4096);
  }

  lemma Splits(n: nat)
    ensures n == n / 64 * 64 + n % 64
  {
  }

  // ------------------------------------------------------------------------------------------ escapes

  /** The digit of this value, in either case of letter. */
  predicate IsDigitOf(c: char, v: nat) {
    v < 16 && (c == "0123456789abcdef"[v] || c == "0123456789ABCDEF"[v])
  }

  /** At offset i stands \u and the digits of these values. */
  predicate UnitAt(t: string, i: nat, a: nat, b: nat, c: nat, d: nat) {
    && i + 6 <= |t| && t[i] == '\\' && t[i + 1] == 'u'
    && IsDigitOf(t[i + 2], a) && IsDigitOf(t[i + 3], b) && IsDigitOf(t[i + 4], c) && IsDigitOf(t[i + 5], d)
  }

  function Number(a: nat, b: nat, c: nat, d: nat): nat {
    ((a * 16 + b) * 16 + c) * 16 + d
  }

  /** Which number stands in the escape at offset i, if one does. */
  ghost predicate SaysNumber(t: string, i: nat, v: nat) {
    exists a, b, c, d :: UnitAt(t, i, a, b, c, d) && v == Number(a, b, c, d)
  }

  lemma DigitSpells(c: char, v: nat)
    requires IsDigitOf(c, v)
    ensures HexValue(c) == v && IsHex(c)
  {
  }

  lemma UnitSpells(t: string, i: nat, v: nat)
    requires SaysNumber(t, i, v)
    ensures i + 6 <= |t| && t[i] == '\\' && t[i + 1] == 'u' && CodeUnit(t, i + 2) == v
  {
    hide IsDigitOf, HexValue;
    var a: nat, b: nat, c: nat, d: nat :| UnitAt(t, i, a, b, c, d) && v == Number(a, b, c, d);
    DigitSpells(t[i + 2], a);
    DigitSpells(t[i + 3], b);
    DigitSpells(t[i + 4], c);
    DigitSpells(t[i + 5], d);
  }

  /** The first and the second half of a surrogate pair (RFC 8259, section 7): ten bits each of what exceeds 0xffff. */
  predicate IsPair(cp: nat, high: nat, low: nat) {
    && 0xd800 <= high < 0xdc00 && 0xdc00 <= low < 0xe000
    && cp == 65536 + (high - 0xd800) * 1024 + (low - 0xdc00)
  }

  /** Two escapes that are the halves of a pair decode to the bytes of one code point. */
  lemma PairDecodes(t: string, i: nat, end: nat, cp: nat, high: nat, low: nat)
    requires i + 12 <= end < |t| && StringEnd(t, i) == CloseAt(end)
    requires SaysNumber(t, i, high) && SaysNumber(t, i + 6, low) && IsPair(cp, high, low)
    ensures 0x1_0000 <= cp < 0x11_0000
    ensures var r := DecodeStep(t, i, end); r.Step? && r.next == i + 12 && IsUtf8(r.bytes, cp)
  {
    hide StringEnd, CodeUnit, IsUtf8, Utf8, SaysNumber;
    UnitSpells(t, i, high);
    UnitSpells(t, i + 6, low);
    Utf8Is(cp);
  }

  /** The escape at offset i is the second half of a pair. */
  ghost predicate LowHalfAt(t: string, i: nat) {
    exists low :: 0xdc00 <= low < 0xe000 && SaysNumber(t, i, low)
  }

  /** Any other escape in four digits decodes to the bytes of its own number, even half a pair. */
  lemma UnitDecodes(t: string, i: nat, end: nat, v: nat)
    requires i < end < |t| && StringEnd(t, i) == CloseAt(end) && SaysNumber(t, i, v)
    requires 0xd800 <= v < 0xdc00 && i + 12 <= end ==> !LowHalfAt(t, i + 6)
    ensures var r := DecodeStep(t, i, end); r.Step? && r.next == i + 6 && IsUtf8(r.bytes, v)
  {
    hide StringEnd, IsUtf8, Utf8, SaysNumber, CodeUnit;
    UnitSpells(t, i, v);
    Utf8Is(v);
    if 0xd800 <= v < 0xdc00 && i + 12 <= end && t[i + 6] == '\\' && t[i + 7] == 'u' {
      SecondUnit(t, i, end);
      DigitsSpell(t, i + 6);
    }
  }

  lemma SecondUnit(t: string, i: nat, end: nat)
    requires i + 12 <= end < |t| && StringEnd(t, i) == CloseAt(end)
    requires t[i] == '\\' && t[i + 1] == 'u' && t[i + 6] == '\\' && t[i + 7] == 'u'
    ensures IsHex(t[i + 8]) && IsHex(t[i + 9]) && IsHex(t[i + 10]) && IsHex(t[i + 11])
  {
    hide IsHex;
    assert StringEnd(t, i) == StringEnd(t, i + 6);
  }

  lemma DigitIs(c: char)
    requires IsHex(c)
    ensures IsDigitOf(c, HexValue(c))
  {
  }

  lemma DigitsSpell(t: string, i: nat)
    requires i + 6 <= |t| && t[i] == '\\' && t[i + 1] == 'u'
    requires IsHex(t[i + 2]) && IsHex(t[i + 3]) && IsHex(t[i + 4]) && IsHex(t[i + 5])
    ensures SaysNumber(t, i, CodeUnit(t, i + 2))
  {
    hide IsDigitOf, HexValue, IsHex;
    DigitIs(t[i + 2]);
    DigitIs(t[i + 3]);
    DigitIs(t[i + 4]);
    DigitIs(t[i + 5]);
    var a, b, c, d := HexValue(t[i + 2]), HexValue(t[i + 3]), HexValue(t[i + 4]), HexValue(t[i + 5]);
    assert UnitAt(t, i, a, b, c, d) && CodeUnit(t, i + 2) == Number(a, b, c, d);
  }

  /** A backslash and a letter stand for one byte; anything but a backslash stands for itself. */
  lemma LetterDecodes(t: string, i: nat, end: nat, k: nat)
    requires i + 1 < end < |t| && StringEnd(t, i) == CloseAt(end) && t[i] == '\\' && k < 8 && t[i + 1] == "\"\\/bfnrt"[k]
    ensures var r := DecodeStep(t, i, end);
            r.Step? && r.next == i + 2 && |r.bytes| == 1 && r.bytes[0] as int == [34, 92, 47, 8, 12, 10, 13, 9][k]
  {
  }

  lemma PlainDecodes(t: string, i: nat, end: nat)
    requires i < end < |t| && StringEnd(t, i) == CloseAt(end) && t[i] != '\\'
    ensures DecodeStep(t, i, end) == Step([t[i]], i + 1)
  {
  }

  /** How a byte is written: as it is, with a letter, or with four digits, whichever the standard asks for and has. */
  lemma EscapeIs(c: char)
    requires c as int < 256
    ensures var e, n := EscapeByte(c), c as int;
            if n in [34, 92, 8, 12, 10, 13, 9] then
              |e| == 2 && e[0] == '\\' && exists k :: 0 <= k < 8 && e[1] == "\"\\/bfnrt"[k] && n == [34, 92, 47, 8, 12, 10, 13, 9][k]
            else if n < 32 then |e| == 6 && UnitAt(e, 0, 0, 0, n / 16, n % 16)
            else e == [c]
  {
    hide HexDigit;
    var e, n, letters, codes := EscapeByte(c), c as int, "\"\\/bfnrt", [34, 92, 47, 8, 12, 10, 13, 9];
    if n in [34, 92, 8, 12, 10, 13, 9] {
      var k := if n == 34 then 0 else if n == 92 then 1 else if n == 8 then 3 else if n == 12 then 4 else if n == 10 then 5
               else if n == 13 then 6 else 7;
      assert e[1] == letters[k] && n == codes[k];
    } else if n < 32 {
      HexDigits(n / 16);
      HexDigits(n % 16);
      HexDigits(0);
    }
  }

  lemma HexDigits(v: nat)
    requires v < 16
    ensures IsDigitOf(HexDigit(v), v)
    ensures v == 0 ==> HexDigit(v) == '0'
  {
  }
}
