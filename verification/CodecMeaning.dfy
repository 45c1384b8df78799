/** The two alphabets in one piece each, and which letters stand for which bytes (RFC 4648, sections 4 and 8). */
module CodecMeaning {
  import opened Words
  import opened Codec

  // -------------------------------------------------------------------------------------- hexadecimal

  /** Each byte takes two digits, the high one first. */
  lemma {:induction false} HexAt(data: seq<uint8>, i: nat)
    requires i < |data|
    ensures Hex(data)[2 * i] == "0123456789abcdef"[data[i] as nat / 16] && Hex(data)[2 * i + 1] == "0123456789abcdef"[data[i] as nat % 16]
  {
    if i > 0 {
      HexAt(data[1..], i - 1);
      assert Hex(data)[2 * i] == Hex(data[1..])[2 * (i - 1)] && Hex(data)[2 * i + 1] == Hex(data[1..])[2 * (i - 1) + 1];
    }
  }

  /** A digit of this value, in either case of letter. */
  predicate IsHexOf(c: char, v: nat) {
    v < 16 && (c == "0123456789abcdef"[v] || c == "0123456789ABCDEF"[v])
  }

  lemma NibbleIff(c: char, v: nat)
    requires v < 16
    ensures HexNibble(c) == v <==> IsHexOf(c, v)
  {
  }

  /** Each byte's two digits stand in the text, and nothing else. */
  ghost predicate HexSpells(s: string, data: seq<uint8>) {
    && |s| == 2 * |data|
    && forall i :: 0 <= i < |data| ==> IsHexOf(s[2 * i], data[i] as nat / 16) && IsHexOf(s[2 * i + 1], data[i] as nat % 16)
  }

  /** A text of digits decodes to the bytes whose digits they are, and no other text decodes. */
  lemma {:induction false} UnhexIff(s: string, data: seq<uint8>)
    ensures Unhex(s) == Bytes(data) <==> HexSpells(s, data)
    decreases |s|
  {
    hide IsHexOf, HexNibble;
    if |s| >= 2 && data != [] {
      UnhexIff(s[2..], data[1..]);
      NibbleIff(s[0], data[0] as nat / 16);
      NibbleIff(s[1], data[0] as nat % 16);
      NibblesJoin(s[0], s[1], data[0]);
      SpellsCons(s, data);
    }
  }

  lemma NibblesJoin(a: char, b: char, d: uint8)
    ensures HexNibble(a) == d as int / 16 && HexNibble(b) == d as int % 16
       <==> HexNibble(a) >= 0 && HexNibble(b) >= 0 && HexNibble(a) * 16 + HexNibble(b) == d as int
  {
    NibbleRange(a);
    NibbleRange(b);
    hide HexNibble;
  }

  lemma NibbleRange(c: char)
    ensures -1 <= HexNibble(c) < 16
  {
  }

  lemma SpellsCons(s: string, data: seq<uint8>)
    requires |s| >= 2 && data != []
    ensures HexSpells(s, data)
       <==> HexSpells(s[2..], data[1..]) && IsHexOf(s[0], data[0] as nat / 16) && IsHexOf(s[1], data[0] as nat % 16)
  {
    hide IsHexOf;
    if HexSpells(s[2..], data[1..]) && IsHexOf(s[0], data[0] as nat / 16) && IsHexOf(s[1], data[0] as nat % 16) {
      forall i | 0 <= i < |data|
        ensures IsHexOf(s[2 * i], data[i] as nat / 16) && IsHexOf(s[2 * i + 1], data[i] as nat % 16)
      {
        if i > 0 {
          assert s[2..][2 * (i - 1)] == s[2 * i] && s[2..][2 * (i - 1) + 1] == s[2 * i + 1] && data[1..][i - 1] == data[i];
        }
      }
    }
    if HexSpells(s, data) {
      forall i | 0 <= i < |data[1..]|
        ensures IsHexOf(s[2..][2 * i], data[1..][i] as nat / 16) && IsHexOf(s[2..][2 * i + 1], data[1..][i] as nat % 16)
      {
        assert s[2..][2 * i] == s[2 * (i + 1)] && s[2..][2 * i + 1] == s[2 * (i + 1) + 1] && data[1..][i] == data[i + 1];
      }
    }
  }

  // ------------------------------------------------------------------------------------------- Base64

  function Alphabet(): (s: string)
    ensures |s| == 64
  {
    "ABCDEFGHIJKLMNOPQRSTUVWXYZ" + "abcdefghijklmnopqrstuvwxyz" + "0123456789+/"
  }

  lemma Capitals(n: nat)
    requires n < 26
    ensures "ABCDEFGHIJKLMNOPQRSTUVWXYZ"[n] as int == 65 + n
  {
  }

  lemma SmallLetters(n: nat)
    requires n < 26
    ensures "abcdefghijklmnopqrstuvwxyz"[n] as int == 97 + n
  {
  }

  lemma Numerals(n: nat)
    requires n < 10
    ensures "0123456789+/"[n] as int == 48 + n
  {
  }

  /** A letter's value is its place in the alphabet. */
  lemma DigitIs(v: Sextet)
    ensures Digit(v) == Alphabet()[v as int]
  {
    var n := v as int;
    if n < 26 {
      Capitals(n);
    } else if n < 52 {
      SmallLetters(n - 26);
    } else if n < 62 {
      Numerals(n - 52);
    }
  }

  /** And every letter of the alphabet has one. */
  lemma DigitValueIff(c: char, v: int)
    ensures DigitValue(c) == v && v >= 0 <==> 0 <= v < 64 && Alphabet()[v] == c
  {
    hide Digit, DigitValue, Alphabet;
    if 0 <= v < 64 {
      DigitIs(v as Sextet);
      DigitsAgree(v as Sextet, c);
    }
    if DigitValue(c) >= 0 {
      DigitIs(DigitValue(c) as Sextet);
      DigitsAgree(DigitValue(c) as Sextet, c);
    }
  }

  /** Four letters that spell a number of 24 bits, six bits each, the highest first; equals signs where bits are missing. */
  ghost predicate Spells(s: string, n: nat, letters: nat) {
    exists a, b, c, d :: SpellsWith(s, n, letters, a, b, c, d)
  }

  predicate SpellsWith(s: string, n: nat, letters: nat, a: Sextet, b: Sextet, c: Sextet, d: Sextet) {
    && |s| == 4 && 2 <= letters <= 4 && n == ((a as int * 64 + b as int) * 64 + c as int) * 64 + d as int
    && s[0] == Digit(a) && s[1] == Digit(b)
    && (if letters > 2 then s[2] == Digit(c) else s[2] == '=' && c == 0)
    && (if letters > 3 then s[3] == Digit(d) else s[3] == '=' && d == 0)
  }

  /** Three bytes as one number, zeros for those that are missing. */
  function Three(data: seq<uint8>, i: nat): nat {
    ((if i < |data| then data[i] as nat else 0) * 256 + (if i + 1 < |data| then data[i + 1] as nat else 0)) * 256
    + if i + 2 < |data| then data[i + 2] as nat else 0
  }

  lemma ThreeSplit(a: uint8, b: uint8, c: uint8)
    ensures ((Top(a) as int * 64 + Upper(a, b) as int) * 64 + Inner(b, c) as int) * 64 + Low(c) as int
         == (a as int * 256 + b as int) * 256 + c as int
  {
  }

  /** Group g of the encoding spells bytes 3g to 3g + 2, with as many letters as the bytes there need. */
  lemma {:induction false} EncodeIs(data: seq<uint8>, g: nat)
    requires 3 * g < |data|
    ensures |Encode(data)| == (|data| + 2) / 3 * 4
    ensures Spells(Encode(data)[4 * g..4 * g + 4], Three(data, 3 * g), if |data| - 3 * g >= 3 then 4 else |data| - 3 * g + 1)
    decreases |data|
  {
    hide Digit, Spells, Top, Upper, Inner, Low;
    EncodeLength(data);
    if g == 0 {
      FirstGroup(data);
    } else {
      EncodeIs(data[3..], g - 1);
      EncodeCons(data);
      LaterGroup(data, g);
    }
  }

  lemma {:induction false} SplitLength(data: seq<uint8>)
    ensures |Split(data)| + Missing(|data|) == (|data| + 2) / 3 * 4
    decreases |data|
  {
    hide Top, Upper, Inner, Low, Missing;
    MissingIs(|data|);
    if |data| >= 3 {
      MissingIs(|data| - 3);
      SplitLength(data[3..]);
    }
  }

  lemma MissingIs(n: nat)
    ensures Missing(n) == (n + 2) / 3 * 3 - n
  {
  }

  lemma EncodeLength(data: seq<uint8>)
    ensures |Encode(data)| == (|data| + 2) / 3 * 4
  {
    hide Split;
    SplitLength(data);
  }

  lemma EncodeCons(data: seq<uint8>)
    requires |data| > 3
    ensures |Encode(data)| >= 4 && Encode(data)[4..] == Encode(data[3..])
  {
    hide Digit, Top, Upper, Inner, Low;
    var vs, more := Split(data), Split(data[3..]);
    assert vs[4..] == more;
    assert Letters(vs)[4..] == Letters(more);
    assert Missing(|data|) == Missing(|data| - 3);
  }

  lemma LaterGroup(data: seq<uint8>, g: nat)
    requires g > 0 && 3 * g < |data| && |Encode(data)| == (|data| + 2) / 3 * 4 && |Encode(data)| >= 4
    requires Encode(data)[4..] == Encode(data[3..])
    ensures |Encode(data[3..])| == |Encode(data)| - 4
    ensures Encode(data)[4 * g..4 * g + 4] == Encode(data[3..])[4 * (g - 1)..4 * (g - 1) + 4]
    ensures Three(data, 3 * g) == Three(data[3..], 3 * (g - 1))
  {
    hide Encode;
  }

  lemma FirstGroup(data: seq<uint8>)
    requires |data| > 0
    ensures |Encode(data)| >= 4
    ensures Spells(Encode(data)[0..4], Three(data, 0), if |data| >= 3 then 4 else |data| + 1)
  {
    hide Digit, Top, Upper, Inner, Low, Encode;
    EncodeLength(data);
    var x, y, z := data[0], if |data| > 1 then data[1] else 0, if |data| > 2 then data[2] else 0;
    ThreeSplit(x, y, z);
    ZeroGroups();
    FirstLetters(data, x, y, z);
    var s, a, b, c, d := Encode(data)[0..4], Top(x), Upper(x, y), Inner(y, z), Low(z);
    assert SpellsWith(s, Three(data, 0), if |data| >= 3 then 4 else |data| + 1, a, b, c, d);
  }

  lemma FirstLetters(data: seq<uint8>, x: uint8, y: uint8, z: uint8)
    requires |data| > 0 && x == data[0] && |Encode(data)| >= 4
    requires y == (if |data| > 1 then data[1] else 0) && z == (if |data| > 2 then data[2] else 0)
    ensures var s := Encode(data)[0..4];
            && s[0] == Digit(Top(x)) && s[1] == Digit(Upper(x, y))
            && s[2] == (if |data| > 1 then Digit(Inner(y, z)) else '=')
            && s[3] == (if |data| > 2 then Digit(Low(z)) else '=')
  {
    hide Digit, Top, Upper, Inner, Low;
    var vs := Split(data);
    assert |vs| == 2 ==> |data| == 1 && Encode(data)[2] == '=' && Encode(data)[3] == '=';
  }

  lemma ZeroGroups()
    ensures Inner(0, 0) == 0 && Low(0) == 0
  {
  }

  // -------------------------------------------------------------------------------------- decoding Base64

  /** Letters, and either no equals sign or as many as complete the last four; one letter alone at the end is too few. */
  ghost predicate LettersAndSigns(s: string, letters: string) {
    && letters <= s && |letters| % 4 != 1 && (forall i :: |letters| <= i < |s| ==> s[i] == '=')
    && (s == letters || (|s| == |letters| + 1 && |s| % 4 == 0) || (|s| == |letters| + 2 && |s| % 4 == 0))
    && forall i :: 0 <= i < |letters| ==> letters[i] in Alphabet()
  }

  lemma LetterHasValue(c: char)
    ensures DigitValue(c) >= 0 <==> c in Alphabet()
    ensures '=' !in Alphabet()
  {
    hide DigitValue, Alphabet;
    if DigitValue(c) >= 0 {
      DigitValueIff(c, DigitValue(c));
    }
    if c in Alphabet() {
      var v :| 0 <= v < 64 && Alphabet()[v] == c;
      DigitValueIff(c, v);
    }
    if '=' in Alphabet() {
      var v :| 0 <= v < 64 && Alphabet()[v] == '=';
      DigitIs(v as Sextet);
      DigitsAgree(v as Sextet, 'A');
    }
  }

  lemma LettersAreCore(s: string, letters: string)
    requires LettersAndSigns(s, letters)
    ensures letters == Core(s)
  {
    hide Alphabet;
    var core := Core(s);
    LetterHasValue('=');
    assert forall i :: 0 <= i < |letters| ==> s[i] == letters[i] && s[i] != '=';
    assert |core| < |s| ==> s[|core|] == '=';
    assert core != "" ==> core[|core| - 1] == s[|core| - 1] != '=';
  }

  /** Exactly such texts decode. */
  lemma DecodesIff(s: string)
    ensures Decode(s).Bytes? <==> exists letters :: LettersAndSigns(s, letters)
  {
    hide Alphabet, Join, Values, DigitValue;
    var core := Core(s);
    forall i | 0 <= i < |core|
      ensures DigitValue(core[i]) >= 0 <==> core[i] in Alphabet()
    {
      LetterHasValue(core[i]);
    }
    if Decode(s).Bytes? {
      assert LettersAndSigns(s, core);
    }
    forall letters | LettersAndSigns(s, letters)
      ensures Decode(s).Bytes?
    {
      LettersAreCore(s, letters);
    }
  }

  /** Byte k takes eight of the 24 bits that its group of four letters spells. */
  function ByteOf(vs: seq<Sextet>, k: nat): int
    requires k / 3 * 4 + k % 3 + 1 < |vs|
  {
    var g := k / 3 * 4 + k % 3;
    var two := vs[g] as int * 64 + vs[g + 1] as int;
    if k % 3 == 0 then two / 16 else if k % 3 == 1 then two / 4 % 256 else two % 256
  }

  lemma {:induction false} JoinIs(vs: seq<Sextet>)
    ensures |Join(vs)| == |vs| * 3 / 4
    ensures forall k :: 0 <= k < |Join(vs)| ==> k / 3 * 4 + k % 3 + 1 < |vs| && Join(vs)[k] as int == ByteOf(vs, k)
    decreases |vs|
  {
    hide Join, ByteOf;
    if |vs| >= 4 {
      JoinFour(vs);
      JoinIs(vs[4..]);
      var rest := Join(vs[4..]);
      forall k | 0 <= k < |Join(vs)|
        ensures k / 3 * 4 + k % 3 + 1 < |vs| && Join(vs)[k] as int == ByteOf(vs, k)
      {
        if k >= 3 {
          Later(vs, k);
          assert Join(vs)[k] == rest[k - 3];
        } else {
          Place(k);
        }
      }
    } else {
      JoinFew(vs);
    }
  }

  lemma Place(k: nat)
    requires k < 3
    ensures k / 3 * 4 + k % 3 == k
  {
  }

  lemma JoinFour(vs: seq<Sextet>)
    requires |vs| >= 4
    ensures Join(vs)[3..] == Join(vs[4..]) && |Join(vs)| == 3 + |Join(vs[4..])|
    ensures forall k :: 0 <= k < 3 ==> Join(vs)[k] as int == ByteOf(vs, k)
  {
    ByteIs(vs);
  }

  lemma JoinFew(vs: seq<Sextet>)
    requires |vs| < 4
    ensures |Join(vs)| == |vs| * 3 / 4
    ensures forall k :: 0 <= k < |Join(vs)| ==> k / 3 * 4 + k % 3 + 1 < |vs| && Join(vs)[k] as int == ByteOf(vs, k)
  {
    ByteIs(vs);
  }

  lemma ByteIs(vs: seq<Sextet>)
    ensures |vs| >= 2 ==> ByteOf(vs, 0) == First(vs[0], vs[1]) as int
    ensures |vs| >= 3 ==> ByteOf(vs, 1) == Second(vs[1], vs[2]) as int
    ensures |vs| >= 4 ==> ByteOf(vs, 2) == Third(vs[2], vs[3]) as int
  {
    hide First, Second, Third;
    if |vs| >= 2 { TwoSextets(vs[0], vs[1]); }
    if |vs| >= 3 { TwoSextets(vs[1], vs[2]); }
    if |vs| >= 4 { TwoSextets(vs[2], vs[3]); }
  }

  /** Twelve bits: the byte at their front, in their middle and at their end. */
  lemma TwoSextets(u: Sextet, v: Sextet)
    ensures var two := u as int * 64 + v as int;
            two / 16 == First(u, v) as int && two / 4 % 256 == Second(u, v) as int && two % 256 == Third(u, v) as int
  {
    var a, b := u as int, v as int;
    FrontByte(a, b / 16, b % 16);
    MiddleByte(a / 16, a % 16, b / 4, b % 4);
    EndByte(a / 4, a % 4, b);
  }

  lemma FrontByte(a: nat, h: nat, l: nat)
    requires l < 16
    ensures (a * 64 + (16 * h + l)) / 16 == a * 4 + h
  {
  }

  lemma MiddleByte(g: nat, m: nat, h: nat, l: nat)
    requires m < 16 && h < 16 && l < 4
    ensures ((16 * g + m) * 64 + (4 * h + l)) / 4 % 256 == m * 16 + h
  {
    assert ((16 * g + m) * 64 + (4 * h + l)) / 4 == 256 * g + (16 * m + h);
  }

  lemma EndByte(g: nat, m: nat, b: nat)
    requires m < 4 && b < 64
    ensures ((4 * g + m) * 64 + b) % 256 == m * 64 + b
  {
  }

  lemma Later(vs: seq<Sextet>, k: nat)
    requires k >= 3 && |vs| >= 4 && (k - 3) / 3 * 4 + (k - 3) % 3 + 1 < |vs| - 4
    ensures k / 3 * 4 + k % 3 + 1 < |vs| && ByteOf(vs, k) == ByteOf(vs[4..], k - 3)
  {
    assert (k - 3) / 3 == k / 3 - 1 && (k - 3) % 3 == k % 3;
  }

  /** What a text decodes to: byte by byte, the bits of its letters' places in the alphabet. */
  lemma DecodeIs(s: string, letters: string) returns (vs: seq<Sextet>)
    requires LettersAndSigns(s, letters)
    ensures |vs| == |letters| && (forall i :: 0 <= i < |vs| ==> letters[i] == Alphabet()[vs[i] as int])
    ensures Decode(s).Bytes? && |Decode(s).data| == |letters| * 3 / 4
    ensures forall k :: 0 <= k < |Decode(s).data| ==>
              k / 3 * 4 + k % 3 + 1 < |vs| && Decode(s).data[k] as int == ByteOf(vs, k)
  {
    hide Alphabet, Join, DigitValue, ByteOf, LettersAndSigns, Core;
    DecodesIff(s);
    LettersAreCore(s, letters);
    vs := Values(letters);
    forall i | 0 <= i < |vs|
      ensures letters[i] == Alphabet()[vs[i] as int]
    {
      DigitValueIff(letters[i], vs[i] as int);
    }
    JoinIs(vs);
    NeverOne(s, letters);
  }

  lemma NeverOne(s: string, letters: string)
    requires LettersAndSigns(s, letters)
    ensures |letters| % 4 != 1
  {
  }
}
