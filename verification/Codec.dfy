/** Hexadecimal and Base64 (RFC 4648, sections 4 and 8) as the program encodes and decodes them. */
module Codec {
  import opened Status
  import opened Words
  import opened Octets
  import opened Arithmetic

  datatype Outcome = Wrote(n: nat) | Invalid | NoMemory

  datatype Decoded = Malformed | Bytes(data: seq<uint8>)

  // ------------------------------------------------------------------------------- hexadecimal

  function HexNibble(c: char): (v: int)
    ensures -1 <= v < 16
  {
    if '0' <= c <= '9' then c as int - '0' as int
    else if 'a' <= c <= 'f' then c as int - 'a' as int + 10
    else if 'A' <= c <= 'F' then c as int - 'A' as int + 10
    else -1
  }

  function Hex(data: seq<uint8>): (s: string)
    ensures |s| == 2 * |data|
  {
    if data == [] then ""
    else [HexDigit(data[0] as nat / 16), HexDigit(data[0] as nat % 16)] + Hex(data[1..])
  }

  function Unhex(s: string): Decoded {
    if s == "" then Bytes([])
    else if |s| == 1 || HexNibble(s[0]) < 0 || HexNibble(s[1]) < 0 then Malformed
    else
      match Unhex(s[2..])
      case Malformed => Malformed
      case Bytes(rest) => Bytes([(HexNibble(s[0]) * 16 + HexNibble(s[1])) as uint8] + rest)
  }

  function Lower(s: string): (t: string)
    ensures |t| == |s|
  {
    seq(|s|, i requires 0 <= i < |s| => if 'A' <= s[i] <= 'F' then (s[i] as int + 32) as char else s[i])
  }

  lemma NibbleOfDigit(v: nat)
    requires v < 16
    ensures HexNibble(HexDigit(v)) == v
  {
  }

  lemma DigitOfNibble(c: char)
    requires HexNibble(c) >= 0
    ensures HexDigit(HexNibble(c)) == if 'A' <= c <= 'F' then (c as int + 32) as char else c
  {
  }

  /** A text decodes to some data exactly when it is their encoding, in either case of letter. */
  lemma {:induction false} UnhexIffHex(s: string, data: seq<uint8>)
    ensures Unhex(s) == Bytes(data) <==> Lower(s) == Hex(data)
  {
    hide Unhex, Hex, Lower, HexNibble, HexDigit;
    UnhexShort(s, data);
    if |s| >= 2 && data != [] {
      UnhexIffHex(s[2..], data[1..]);
      UnhexCons(s);
      LowerCons(s);
      HexCons(data);
      HexPair(s[0], s[1], data[0]);
      PairThen(Lower([s[0]]) + Lower([s[1]]), HexOf(data[0]), Lower(s[2..]), Hex(data[1..]));
    }
  }

  /** The two digits of a byte. */
  function HexOf(b: uint8): (s: string)
    ensures |s| == 2
  {
    [HexDigit(b as nat / 16), HexDigit(b as nat % 16)]
  }

  lemma UnhexShort(s: string, data: seq<uint8>)
    ensures |s| < 2 || data == [] ==> (Unhex(s) == Bytes(data) <==> Lower(s) == Hex(data))
  {
    hide HexNibble, HexDigit;
  }

  lemma UnhexCons(s: string)
    requires |s| >= 2
    ensures var hi, lo := HexNibble(s[0]), HexNibble(s[1]);
            Unhex(s) == if hi < 0 || lo < 0 then Malformed
                        else Before([(hi * 16 + lo) as uint8], Unhex(s[2..]))
  {
    hide HexNibble;
  }

  lemma LowerCons(s: string)
    requires |s| >= 2
    ensures Lower(s) == Lower([s[0]]) + Lower([s[1]]) + Lower(s[2..])
  {
  }

  lemma HexCons(data: seq<uint8>)
    requires data != []
    ensures Hex(data) == HexOf(data[0]) + Hex(data[1..])
  {
    hide HexDigit;
  }

  /** Two characters are the digits of a byte, in either case, exactly when their values make it. */
  lemma HexPair(a: char, b: char, n: uint8)
    ensures Lower([a]) + Lower([b]) == HexOf(n) <==>
            HexNibble(a) >= 0 && HexNibble(b) >= 0 && HexNibble(a) * 16 + HexNibble(b) == n as int
  {
    var h, l := n as nat / 16, n as nat % 16;
    hide HexDigit, HexNibble;
    DigitIff(a, h);
    DigitIff(b, l);
    var both := Lower([a]) + Lower([b]);
    assert both[0] == Lower([a])[0] && both[1] == Lower([b])[0];
  }

  lemma DigitIff(c: char, v: nat)
    requires v < 16
    ensures Lower([c])[0] == HexDigit(v) <==> HexNibble(c) == v
  {
    NibbleOfDigit(v);
    if HexNibble(c) >= 0 {
      DigitOfNibble(c);
    }
    LowerNibble(c);
  }

  lemma PairThen(a: string, b: string, s: string, t: string)
    requires |a| == |b| == 2
    ensures a + s == b + t <==> a == b && s == t
  {
    assert (a + s)[..2] == a && (b + t)[..2] == b && (a + s)[2..] == s && (b + t)[2..] == t;
  }

  lemma LowerNibble(c: char)
    ensures HexNibble(Lower([c])[0]) == HexNibble(c)
  {
  }

  lemma HexStep(data: seq<uint8>, i: nat)
    requires i < |data|
    ensures Hex(data[i..]) == HexOf(data[i]) + Hex(data[i + 1..])
  {
    assert data[i..][1..] == data[i + 1..];
  }

  lemma Append(a: string, b: string, c: string)
    ensures a + (b + c) == (a + b) + c
  {
  }

  method PutDigits(out: array<char>, at: nat, b: uint8)
    requires at + 2 <= out.Length
    modifies out
    ensures out[..at + 2] == old(out[..at]) + HexOf(b)
  {
    hide HexDigit;
    out[at] := HexDigit(b as nat / 16);
    out[at + 1] := HexDigit(b as nat % 16);
    assert out[..at + 2] == out[..at] + [out[at], out[at + 1]];
  }

  /** Writes the digits and a terminating zero byte behind the first `at` bytes of a buffer, if they fit. */
  method HexEncode(data: seq<uint8>, out: array<char>, at: nat) returns (r: Outcome)
    requires at <= out.Length
    modifies out
    ensures r == if |data| > INT_MAX / 2 || out.Length - at < 2 * |data| + 1 then NoMemory else Wrote(2 * |data|)
    ensures r.Wrote? ==> out[..at + r.n] == old(out[..at]) + Hex(data) && out[at + r.n] == 0 as char
  {
    hide Hex;
    var room := out.Length - at;
    if |data| > INT_MAX / 2 || room == 0 || |data| > (room - 1) / 2 {
      return NoMemory;
    }
    PutAllDigits(data, out, at);
    out[at + 2 * |data|] := 0 as char;
    r := Wrote(2 * |data|);
  }

  method PutAllDigits(data: seq<uint8>, out: array<char>, at: nat)
    requires at + 2 * |data| <= out.Length
    modifies out
    ensures out[..at + 2 * |data|] == old(out[..at]) + Hex(data)
  {
    hide Hex, HexDigit, HexOf;
    var i, o := 0, at;
    assert data[0..] == data;
    ghost var whole := out[..at] + Hex(data);
    while i < |data|
      invariant 0 <= i <= |data| && o == at + 2 * i && out[..o] + Hex(data[i..]) == whole
    {
      ghost var done := out[..o];
      HexStep(data, i);
      PutDigits(out, o, data[i]);
      Append(done, HexOf(data[i]), Hex(data[i + 1..]));
      i, o := i + 1, o + 2;
    }
    NoDigits(data[i..]);
    assert out[..o] + "" == out[..o];
  }

  lemma NoDigits(data: seq<uint8>)
    requires data == []
    ensures Hex(data) == ""
  {
  }

  /** Data read before the rest of the text. */
  function Before(done: seq<uint8>, d: Decoded): Decoded {
    match d
    case Malformed => Malformed
    case Bytes(rest) => Bytes(done + rest)
  }

  lemma UnhexStep(s: string, i: nat, done: seq<uint8>)
    requires i + 2 <= |s|
    ensures var hi, lo := HexNibble(s[i]), HexNibble(s[i + 1]);
            Before(done, Unhex(s[i..])) ==
              if hi < 0 || lo < 0 then Malformed
              else Before(done + [(hi * 16 + lo) as uint8], Unhex(s[i + 2..]))
  {
    var t := s[i..];
    assert t[2..] == s[i + 2..] && t[0] == s[i] && t[1] == s[i + 1];
    var rest := Unhex(s[i + 2..]);
    if HexNibble(s[i]) >= 0 && HexNibble(s[i + 1]) >= 0 && rest.Bytes? {
      var b := [(HexNibble(s[i]) * 16 + HexNibble(s[i + 1])) as uint8];
      assert done + (b + rest.data) == (done + b) + rest.data;
    }
  }

  method HexDecode(s: string, out: array<uint8>) returns (r: Outcome)
    modifies out
    ensures |s| % 2 != 0 ==> r == Invalid
    ensures |s| % 2 == 0 && (|s| / 2 > INT_MAX || out.Length < |s| / 2) ==> r == NoMemory
    ensures |s| % 2 == 0 && |s| / 2 <= INT_MAX && out.Length >= |s| / 2 ==>
      (Unhex(s) == Malformed ==> r == Invalid) &&
      (Unhex(s).Bytes? ==> r == Wrote(|s| / 2) && Unhex(s) == Bytes(out[..|s| / 2]))
  {
    if |s| % 2 != 0 {
      return Invalid;
    }
    var bytes := |s| / 2;
    if bytes > INT_MAX || out.Length < bytes {
      return NoMemory;
    }
    hide Unhex;
    var ok := HexPairs(s, out, bytes);
    r := if ok then Wrote(bytes) else Invalid;
  }

  method HexPairs(s: string, out: array<uint8>, bytes: nat) returns (ok: bool)
    requires |s| == 2 * bytes && bytes <= out.Length
    modifies out
    ensures Unhex(s) == if ok then Bytes(out[..bytes]) else Malformed
  {
    hide Unhex, HexNibble, Before;
    var i := 0;
    assert s[0..] == s && out[..0] == [];
    Nothing(Unhex(s));
    while i < bytes
      invariant 0 <= i <= bytes
      invariant Unhex(s) == Before(out[..i], Unhex(s[2 * i..]))
    {
      ghost var done := out[..i];
      UnhexStep(s, 2 * i, done);
      var hi, lo := HexNibble(s[2 * i]), HexNibble(s[2 * i + 1]);
      if hi < 0 || lo < 0 {
        return false;
      }
      out[i] := (hi * 16 + lo) as uint8;
      assert out[..i + 1] == done + [out[i]];
      i := i + 1;
    }
    AllRead(out[..bytes], s[2 * i..]);
    ok := true;
  }

  lemma AllRead(done: seq<uint8>, s: string)
    requires s == ""
    ensures Before(done, Unhex(s)) == Bytes(done)
  {
    assert done + [] == done;
  }

  lemma Nothing(d: Decoded)
    ensures Before([], d) == d
  {
    if d.Bytes? {
      assert [] + d.data == d.data;
    }
  }

  // ------------------------------------------------------------------------------- Base64

  /** The alphabet: capital letters, small letters, digits, plus and slash. */
  function Digit(v: Sextet): char {
    if v < 26 then ('A' as int + v as int) as char
    else if v < 52 then ('a' as int + v as int - 26) as char
    else if v < 62 then ('0' as int + v as int - 52) as char
    else if v == 62 then '+'
    else '/'
  }

  function DigitValue(c: char): (v: int)
    ensures -1 <= v < 64
  {
    if 'A' <= c <= 'Z' then c as int - 'A' as int
    else if 'a' <= c <= 'z' then c as int - 'a' as int + 26
    else if '0' <= c <= '9' then c as int - '0' as int + 52
    else if c == '+' then 62
    else if c == '/' then 63
    else -1
  }

  newtype Sextet = v: int | 0 <= v < 64

  function First(u: Sextet, v: Sextet): uint8 {
    (u as int * 4 + v as int / 16) as uint8
  }

  function Second(u: Sextet, v: Sextet): uint8 {
    (u as int % 16 * 16 + v as int / 4) as uint8
  }

  function Third(u: Sextet, v: Sextet): uint8 {
    (u as int % 4 * 64 + v as int) as uint8
  }

  /** RFC 4648, section 4: 24 bits at a time; what is left over at the end gives 8 or 16 bits. */
  function Join(vs: seq<Sextet>): seq<uint8> {
    if |vs| < 2 then []
    else if |vs| == 2 then [First(vs[0], vs[1])]
    else if |vs| == 3 then [First(vs[0], vs[1]), Second(vs[1], vs[2])]
    else [First(vs[0], vs[1]), Second(vs[1], vs[2]), Third(vs[2], vs[3])] + Join(vs[4..])
  }

  function Top(a: uint8): Sextet {
    (a as nat / 4) as Sextet
  }

  function Upper(a: uint8, b: uint8): Sextet {
    (a as nat % 4 * 16 + b as nat / 16) as Sextet
  }

  function Inner(b: uint8, c: uint8): Sextet {
    (b as nat % 16 * 4 + c as nat / 64) as Sextet
  }

  function Low(c: uint8): Sextet {
    (c as nat % 64) as Sextet
  }

  /** The six-bit groups of some data, the last one filled up with zero bits. */
  function Split(data: seq<uint8>): (vs: seq<Sextet>) {
    if |data| == 0 then []
    else if |data| == 1 then [Top(data[0]), Upper(data[0], 0)]
    else if |data| == 2 then [Top(data[0]), Upper(data[0], data[1]), Inner(data[1], 0)]
    else [Top(data[0]), Upper(data[0], data[1]), Inner(data[1], data[2]), Low(data[2])] + Split(data[3..])
  }

  function Letters(vs: seq<Sextet>): (s: string)
    ensures |s| == |vs| && forall i :: 0 <= i < |s| ==> s[i] == Digit(vs[i])
  {
    seq(|vs|, i requires 0 <= i < |vs| => Digit(vs[i]))
  }

  function Padding(n: nat): (s: string)
    ensures |s| == n && forall i :: 0 <= i < n ==> s[i] == '='
  {
    seq(n, _ => '=')
  }

  /** How many equals signs complete the last group of four. */
  function Missing(length: nat): nat {
    (3 - length % 3) % 3
  }

  function Encode(data: seq<uint8>): string {
    Letters(Split(data)) + Padding(Missing(|data|))
  }

  lemma {:induction false} JoinSplit(data: seq<uint8>)
    ensures Join(Split(data)) == data
  {
    if |data| >= 3 {
      hide Split, Join, First, Second, Third, Top, Upper, Inner, Low;
      JoinSplit(data[3..]);
      var vs := Split(data);
      SplitUnfold(data);
      assert vs[4..] == Split(data[3..]);
      JoinUnfold(vs);
      ThreeBytes(data[0], data[1], data[2]);
      assert data == [data[0], data[1], data[2]] + data[3..];
    } else {
      JoinSplitShort(data);
    }
  }

  lemma ThreeBytes(a: uint8, b: uint8, c: uint8)
    ensures First(Top(a), Upper(a, b)) == a && Second(Upper(a, b), Inner(b, c)) == b && Third(Inner(b, c), Low(c)) == c
  {
  }

  lemma JoinSplitShort(data: seq<uint8>)
    requires |data| < 3
    ensures Join(Split(data)) == data
  {
    hide First, Second, Third, Top, Upper, Inner, Low;
    if |data| > 0 {
      ThreeBytes(data[0], if |data| == 2 then data[1] else 0, 0);
    }
  }

  /** The bits that the last group carries beyond the data are zero. */
  predicate Canonical(vs: seq<Sextet>) {
    && (|vs| % 4 == 2 ==> vs[|vs| - 1] % 16 == 0)
    && (|vs| % 4 == 3 ==> vs[|vs| - 1] % 4 == 0)
  }

  /** Four groups make three bytes, and these make the four groups again. */
  lemma Quantum(vs: seq<Sextet>)
    requires |vs| >= 4
    ensures Split(Join(vs)) == [vs[0], vs[1], vs[2], vs[3]] + Split(Join(vs[4..]))
  {
    hide Join, Split, First, Second, Third, Top, Upper, Inner, Low;
    var x, y, z, rest := First(vs[0], vs[1]), Second(vs[1], vs[2]), Third(vs[2], vs[3]), Join(vs[4..]);
    JoinUnfold(vs);
    FourGroups(vs[0], vs[1], vs[2], vs[3]);
    SplitThree(x, y, z, rest);
  }

  lemma SplitThree(x: uint8, y: uint8, z: uint8, rest: seq<uint8>)
    ensures Split([x, y, z] + rest) == [Top(x), Upper(x, y), Inner(y, z), Low(z)] + Split(rest)
  {
    assert ([x, y, z] + rest)[3..] == rest;
  }

  lemma JoinUnfold(vs: seq<Sextet>)
    requires |vs| >= 4
    ensures Join(vs) == [First(vs[0], vs[1]), Second(vs[1], vs[2]), Third(vs[2], vs[3])] + Join(vs[4..])
  {
  }

  lemma SplitUnfold(data: seq<uint8>)
    requires |data| >= 3
    ensures Split(data)
         == [Top(data[0]), Upper(data[0], data[1]), Inner(data[1], data[2]), Low(data[2])] + Split(data[3..])
  {
  }

  lemma FourGroups(v0: Sextet, v1: Sextet, v2: Sextet, v3: Sextet)
    ensures var a, b, c := First(v0, v1), Second(v1, v2), Third(v2, v3);
            && Top(a) == v0 && Upper(a, b) == v1 && Inner(b, c) == v2 && Low(c) == v3
            && Upper(a, 0) == v1 / 16 * 16 && Inner(b, 0) == v2 / 4 * 4
  {
  }

  lemma {:induction false} SplitJoin(vs: seq<Sextet>)
    requires |vs| % 4 != 1
    ensures Split(Join(vs)) == vs <==> Canonical(vs)
    ensures |Split(Join(vs))| == |vs|
  {
    if |vs| >= 4 {
      hide Split, Join, Canonical;
      SplitJoin(vs[4..]);
      Quantum(vs);
      FourAndRest(vs, Split(Join(vs[4..])));
      CanonicalTail(vs);
    } else {
      LastSplitJoin(vs);
    }
  }

  lemma CanonicalTail(vs: seq<Sextet>)
    requires |vs| >= 4
    ensures Canonical(vs) <==> Canonical(vs[4..])
  {
    var tail := vs[4..];
    assert tail != [] ==> tail[|tail| - 1] == vs[|vs| - 1];
  }

  lemma FourAndRest(vs: seq<Sextet>, tail: seq<Sextet>)
    requires |vs| >= 4
    ensures [vs[0], vs[1], vs[2], vs[3]] + tail == vs <==> tail == vs[4..]
  {
    var four := [vs[0], vs[1], vs[2], vs[3]];
    assert (four + tail)[4..] == tail;
    assert forall i :: 4 <= i < |vs| ==> vs[4..][i - 4] == vs[i];
  }

  lemma LastSplitJoin(vs: seq<Sextet>)
    requires |vs| < 4 && |vs| != 1
    ensures Split(Join(vs)) == vs <==> Canonical(vs)
    ensures |Split(Join(vs))| == |vs|
  {
    hide First, Second, Third, Top, Upper, Inner, Low;
    if |vs| == 2 {
      FourGroups(vs[0], vs[1], 0, 0);
      assert Split(Join(vs)) == [vs[0], vs[1] / 16 * 16];
    } else if |vs| == 3 {
      FourGroups(vs[0], vs[1], vs[2], 0);
      assert Split(Join(vs)) == [vs[0], vs[1], vs[2] / 4 * 4];
    }
  }

  lemma {:induction false} SplitLength(data: seq<uint8>)
    ensures |Split(data)| == |data| / 3 * 4 + (if |data| % 3 == 0 then 0 else |data| % 3 + 1)
    ensures Canonical(Split(data))
  {
    if |data| >= 3 {
      hide Split, Canonical;
      SplitLength(data[3..]);
      SplitUnfold(data);
      CanonicalTail(Split(data));
    } else {
      SplitShort(data);
    }
  }

  lemma SplitShort(data: seq<uint8>)
    requires |data| < 3
    ensures |Split(data)| == (if |data| == 0 then 0 else |data| + 1) && Canonical(Split(data))
  {
    hide Top;
  }

  /** The text without the equals signs at its end. */
  function Core(s: string): (t: string)
    ensures t <= s && (t != "" ==> t[|t| - 1] != '=') && forall i :: |t| <= i < |s| ==> s[i] == '='
  {
    if s != "" && s[|s| - 1] == '=' then Core(s[..|s| - 1]) else s
  }

  /** Padding may be left out; when present it completes the last group of four. */
  predicate WellPadded(s: string) {
    var core := Core(s);
    var padding := |s| - |core|;
    |core| % 4 != 1 && (padding != 0 ==> padding <= 2 && |s| % 4 == 0 && |core| % 4 == 4 - padding)
  }

  predicate AllDigits(s: string) {
    forall i :: 0 <= i < |s| ==> DigitValue(s[i]) >= 0
  }

  function Values(s: string): (vs: seq<Sextet>)
    requires AllDigits(s)
    ensures |vs| == |s|
  {
    seq(|s|, i requires 0 <= i < |s| => DigitValue(s[i]) as Sextet)
  }

  function Decode(s: string): Decoded {
    if WellPadded(s) && AllDigits(Core(s)) then Bytes(Join(Values(Core(s)))) else Malformed
  }

  lemma DigitsAgree(v: Sextet, c: char)
    ensures DigitValue(Digit(v)) == v as int && Digit(v) != '='
    ensures DigitValue(c) >= 0 ==> Digit(DigitValue(c) as Sextet) == c
  {
  }

  lemma CoreOfEncoding(vs: seq<Sextet>, n: nat)
    ensures Core(Letters(vs) + Padding(n)) == Letters(vs)
  {
    var s := Letters(vs) + Padding(n);
    if n > 0 {
      assert s[..|s| - 1] == Letters(vs) + Padding(n - 1);
      CoreOfEncoding(vs, n - 1);
    } else {
      assert s == Letters(vs);
      if vs != [] {
        DigitsAgree(vs[|vs| - 1], 'A');
      }
    }
  }

  lemma ValuesOfLetters(vs: seq<Sextet>)
    ensures AllDigits(Letters(vs)) && Values(Letters(vs)) == vs
  {
    forall i | 0 <= i < |vs|
      ensures DigitValue(Letters(vs)[i]) == vs[i] as int
    {
      DigitsAgree(vs[i], 'A');
    }
  }

  lemma LettersOfValues(s: string)
    requires AllDigits(s)
    ensures Letters(Values(s)) == s
  {
    forall i | 0 <= i < |s|
      ensures Letters(Values(s))[i] == s[i]
    {
      DigitsAgree(0, s[i]);
    }
  }

  /** Decoding undoes encoding, for all data. */
  lemma DecodeEncode(data: seq<uint8>)
    ensures Decode(Encode(data)) == Bytes(data)
  {
    hide Split, Core, Letters, Values, Join, Padding, Encode, AllDigits, Missing;
    var vs := Split(data);
    EncodeIs(data);
    CoreOfEncoding(vs, Missing(|data|));
    ValuesOfLetters(vs);
    JoinSplit(data);
  }

  /** Encoding undoes decoding only for padded text whose spare bits are zero. */
  lemma EncodeDecode(s: string)
    requires Decode(s).Bytes?
    ensures Encode(Decode(s).data) == s <==> |s| % 4 == 0 && Canonical(Values(Core(s)))
  {
    hide Split, Core, Letters, Values, Join, Padding, Encode, Canonical, Decode, WellPadded, AllDigits;
    DecodedIs(s);
    var vs := Values(Core(s));
    SplitJoin(vs);
    if |s| % 4 == 0 && Canonical(vs) {
      EncodesBack(s, vs);
    }
    if Encode(Join(vs)) == s {
      EncodedCore(s, vs);
    }
  }

  lemma EncodesBack(s: string, vs: seq<Sextet>)
    requires AllDigits(Core(s)) && vs == Values(Core(s)) && Split(Join(vs)) == vs
    requires |s| % 4 == 0 && |s| - |Core(s)| <= 2
    ensures Encode(Join(vs)) == s
  {
    hide Split, Core, Letters, Values, Join, Padding, Encode, AllDigits, Missing;
    var data := Join(vs);
    EncodeShape(data);
    LettersOfValues(Core(s));
    CorePadding(s);
    PaddingIs(|vs|, Missing(|data|), |s| - |Core(s)|);
  }

  lemma EncodeShape(data: seq<uint8>)
    ensures Encode(data) == Letters(Split(data)) + Padding(Missing(|data|))
    ensures (|Split(data)| + Missing(|data|)) % 4 == 0 && Missing(|data|) <= 2
  {
    hide Split, Letters, Padding, Encode, Missing;
    EncodeIs(data);
  }

  lemma PaddingIs(length: nat, n: nat, p: nat)
    requires n <= 2 && p <= 2 && (length + n) % 4 == 0 && (length + p) % 4 == 0
    ensures n == p
  {
  }

  lemma EncodedCore(s: string, vs: seq<Sextet>)
    requires AllDigits(Core(s)) && vs == Values(Core(s)) && Encode(Join(vs)) == s
    ensures |s| % 4 == 0 && Split(Join(vs)) == vs
  {
    hide Split, Core, Letters, Values, Join, Padding, Encode, AllDigits, Missing;
    var data := Join(vs);
    EncodeIs(data);
    CoreOfEncoding(Split(data), Missing(|data|));
    ValuesOfLetters(Split(data));
  }

  lemma DecodedIs(s: string)
    requires Decode(s).Bytes?
    ensures AllDigits(Core(s)) && Decode(s).data == Join(Values(Core(s))) && |Core(s)| % 4 != 1
    ensures |s| % 4 == 0 ==> |s| - |Core(s)| <= 2 && (|Core(s)| + (|s| - |Core(s)|)) % 4 == 0
  {
  }

  lemma CorePadding(s: string)
    ensures s == Core(s) + Padding(|s| - |Core(s)|)
  {
  }

  lemma PairDecodes(vs: seq<Sextet>)
    requires |vs| == 2
    ensures Decode(Letters(vs) + Padding(2)) == Bytes(Join(vs))
  {
    hide Join, Letters, Padding, Core, Values, AllDigits;
    CoreOfEncoding(vs, 2);
    ValuesOfLetters(vs);
  }

  lemma PairLetters(low: Sextet)
    requires low == 16 || low == 17
    ensures Letters([16, low]) + Padding(2) == if low == 16 then "QQ==" else "QR=="
  {
    assert Digit(16) == 'Q' && Digit(17) == 'R';
  }

  lemma PairJoins(low: Sextet)
    requires low == 16 || low == 17
    ensures Join([16, low]) == [0x41]
  {
  }

  lemma SplitOne()
    ensures Split([0x41]) == [16, 16]
  {
  }

  /** A text that decodes, although no encoder writes it. */
  lemma SpareBitsIgnored()
    ensures Decode("QR==") == Decode("QQ==") == Bytes([0x41])
    ensures Encode([0x41]) == "QQ=="
  {
    hide Decode, Encode, Join, Letters, Split, Padding;
    PairDecodes([16, 16]);
    PairLetters(16);
    PairJoins(16);
    PairDecodes([16, 17]);
    PairLetters(17);
    PairJoins(17);
    EncodeIs([0x41]);
    SplitOne();
  }

  // ------------------------------------------------------------------------------- the encoder's loop

  method Base64Encode(data: seq<uint8>, out: array<char>) returns (r: Outcome)
    modifies out
    ensures r == if |data| > INT_MAX / 4 * 3 || out.Length < |Encode(data)| + 1 then NoMemory else Wrote(|Encode(data)|)
    ensures r.Wrote? ==> out[..r.n] == Encode(data) && out[r.n] == 0 as char
  {
    hide Split, Letters, Digit, Encode, Missing, Padding;
    EncodeIs(data);
    if |data| > INT_MAX / 4 * 3 {
      return NoMemory;
    }
    var outLen := (|data| + 2) / 3 * 4;
    if out.Length < outLen + 1 {
      return NoMemory;
    }
    var o, i := FullGroups(data, out);
    o := LastGroup(data, out, o, i);
    out[o] := 0 as char;
    r := Wrote(o);
  }

  method FullGroups(data: seq<uint8>, out: array<char>) returns (o: nat, i: nat)
    requires (|data| + 2) / 3 * 4 <= out.Length
    modifies out
    ensures i <= |data| < i + 3 && i % 3 == 0 && o == i / 3 * 4 <= out.Length
    ensures out[..o] + Letters(Split(data[i..])) == Letters(Split(data))
  {
    hide Split, Letters;
    o, i := 0, 0;
    ghost var groups := 0;
    assert data[0..] == data;
    while i + 3 <= |data|
      invariant i <= |data| && i == 3 * groups && o == 4 * groups
      invariant out[..o] + Letters(Split(data[i..])) == Letters(Split(data))
    {
      ghost var done := out[..o];
      GroupFits(|data|, groups);
      FullGroup(out, o, data, i);
      Append(done, out[o..o + 4], Letters(Split(data[i + 3..])));
      groups, o, i := groups + 1, o + 4, i + 3;
    }
    GroupCount(|data|, groups);
  }

  lemma GroupFits(n: nat, groups: nat)
    requires 3 * groups + 3 <= n
    ensures 4 * groups + 4 <= (n + 2) / 3 * 4
  {
  }

  lemma GroupCount(n: nat, groups: nat)
    requires 3 * groups <= n < 3 * groups + 3
    ensures 3 * groups / 3 == groups && 3 * groups % 3 == 0 && 4 * groups <= (n + 2) / 3 * 4
  {
  }

  /** Three bytes, four letters. */
  method FullGroup(out: array<char>, o: nat, data: seq<uint8>, i: nat)
    requires o + 4 <= out.Length && i + 3 <= |data|
    modifies out
    ensures out[..o] == old(out[..o]) && out[..o + 4] == out[..o] + out[o..o + 4]
    ensures Letters(Split(data[i..])) == out[o..o + 4] + Letters(Split(data[i + 3..]))
  {
    hide Split, Letters, Digit;
    var chunk := data[i] as nat * 65536 + data[i + 1] as nat * 256 + data[i + 2] as nat;
    LettersStep(data, i);
    var a, b := Digit((chunk / 0x4_0000 % 64) as Sextet), Digit((chunk / 0x1000 % 64) as Sextet);
    var c, d := Digit((chunk / 64 % 64) as Sextet), Digit((chunk % 64) as Sextet);
    out[o], out[o + 1], out[o + 2], out[o + 3] := a, b, c, d;
    assert out[o..o + 4] == [a, b, c, d];
  }

  lemma EncodeIs(data: seq<uint8>)
    ensures Encode(data) == Letters(Split(data)) + Padding(Missing(|data|))
    ensures |Encode(data)| == (|data| + 2) / 3 * 4
    ensures |Encode(data)| % 4 == 0 && |Encode(data)| == |Split(data)| + Missing(|data|) && Missing(|data|) <= 2
  {
    hide Split, Letters, Canonical;
    SplitLength(data);
  }

  lemma Chunk(first: uint8, second: uint8, third: uint8)
    ensures var chunk := first as nat * 65536 + second as nat * 256 + third as nat;
            && chunk / 0x4_0000 % 64 == Top(first) as int && chunk / 0x1000 % 64 == Upper(first, second) as int
            && chunk / 64 % 64 == Inner(second, third) as int && chunk % 64 == Low(third) as int
  {
    var a, b, c := first as nat, second as nat, third as nat;
    var chunk := a * 65536 + b * 256 + c;
    QuotientIs(chunk, 0x4_0000, a / 4, a % 4 * 65536 + b * 256 + c);
    QuotientIs(chunk, 0x1000, a * 16 + b / 16, b % 16 * 256 + c);
    QuotientIs(a * 16 + b / 16, 64, a / 4, a % 4 * 16 + b / 16);
    QuotientIs(chunk, 64, a * 1024 + b * 4 + c / 64, c % 64);
    QuotientIs(a * 1024 + b * 4 + c / 64, 64, a * 16 + b / 16, b % 16 * 4 + c / 64);
  }

  /** Three bytes as the loop writes them. */
  lemma LettersStep(data: seq<uint8>, i: nat)
    requires i + 3 <= |data|
    ensures var chunk := data[i] as nat * 65536 + data[i + 1] as nat * 256 + data[i + 2] as nat;
            Letters(Split(data[i..])) ==
            [Digit((chunk / 0x4_0000 % 64) as Sextet), Digit((chunk / 0x1000 % 64) as Sextet),
             Digit((chunk / 64 % 64) as Sextet), Digit((chunk % 64) as Sextet)]
            + Letters(Split(data[i + 3..]))
  {
    hide Digit;
    var rest := data[i..];
    Chunk(rest[0], rest[1], rest[2]);
    SplitUnfold(rest);
    assert rest[3..] == data[i + 3..];
  }

  /** The last one or two bytes as written, with their padding. */
  lemma LettersEnd(data: seq<uint8>, i: nat)
    requires i <= |data| < i + 3
    ensures i == |data| ==> Letters(Split(data[i..])) == ""
    ensures i + 1 == |data| ==>
      var chunk := data[i] as nat * 65536;
      Letters(Split(data[i..])) == [Digit((chunk / 0x4_0000 % 64) as Sextet), Digit((chunk / 0x1000 % 64) as Sextet)]
    ensures i + 2 == |data| ==>
      var chunk := data[i] as nat * 65536 + data[i + 1] as nat * 256;
      Letters(Split(data[i..])) == [Digit((chunk / 0x4_0000 % 64) as Sextet), Digit((chunk / 0x1000 % 64) as Sextet),
                                    Digit((chunk / 64 % 64) as Sextet)]
  {
    hide Digit;
    var rest := data[i..];
    if |rest| == 1 {
      Chunk(rest[0], 0, 0);
    } else if |rest| == 2 {
      Chunk(rest[0], rest[1], 0);
    }
  }

  lemma PaddingTexts()
    ensures Padding(0) == "" && Padding(1) == "=" && Padding(2) == "=="
  {
  }

  method PutFour(out: array<char>, at: nat, a: char, b: char, c: char, d: char)
    requires at + 4 <= out.Length
    modifies out
    ensures out[..at + 4] == old(out[..at]) + [a, b, c, d]
  {
    out[at], out[at + 1], out[at + 2], out[at + 3] := a, b, c, d;
    assert out[..at + 4] == out[..at] + [a, b, c, d];
  }

  method LastGroup(data: seq<uint8>, out: array<char>, at: nat, i: nat) returns (o: nat)
    requires i <= |data| < i + 3 && i % 3 == 0 && at == i / 3 * 4 && |Encode(data)| < out.Length
    requires |Encode(data)| == (|data| + 2) / 3 * 4
    requires out[..at] + Letters(Split(data[i..])) == Letters(Split(data))
    modifies out
    ensures o == |Encode(data)| && out[..o] == Encode(data)
  {
    hide Split, Letters, Digit, Encode, Padding, Missing;
    PaddingTexts();
    o := at;
    ghost var done := out[..at];
    var left := |data| - i;
    EncodeIs(data);
    LettersEnd(data, i);
    if left == 1 {
      var chunk := data[i] as nat * 65536;
      var a, b := Digit((chunk / 0x4_0000 % 64) as Sextet), Digit((chunk / 0x1000 % 64) as Sextet);
      PutFour(out, o, a, b, '=', '=');
      o := o + 4;
      assert [a, b] + "==" == [a, b, '=', '='];
    } else if left == 2 {
      var chunk := data[i] as nat * 65536 + data[i + 1] as nat * 256;
      var a, b := Digit((chunk / 0x4_0000 % 64) as Sextet), Digit((chunk / 0x1000 % 64) as Sextet);
      var c := Digit((chunk / 64 % 64) as Sextet);
      PutFour(out, o, a, b, c, '=');
      o := o + 4;
      assert [a, b, c] + "=" == [a, b, c, '='];
    } else {
      assert out[..o] == done + "" + "";
    }
  }

  // ------------------------------------------------------------------------------- the decoder's loop

  /** What one more group adds: nothing after a complete quantum, else a byte from it and the group before. */
  function Emitted(vs: seq<Sextet>, v: Sextet): seq<uint8> {
    var r := |vs| % 4;
    if r == 0 then []
    else
      var u := vs[|vs| - 1];
      [if r == 1 then First(u, v) else if r == 2 then Second(u, v) else Third(u, v)]
  }

  lemma {:induction false} JoinNext(vs: seq<Sextet>, v: Sextet)
    ensures Join(vs + [v]) == Join(vs) + Emitted(vs, v)
  {
    hide First, Second, Third, Join, Emitted;
    if |vs| >= 4 {
      JoinNext(vs[4..], v);
      JoinUnfold(vs);
      JoinUnfold(vs + [v]);
      assert (vs + [v])[4..] == vs[4..] + [v];
      EmittedLater(vs, v);
    } else {
      LastJoinNext(vs, v);
    }
  }

  lemma EmittedLater(vs: seq<Sextet>, v: Sextet)
    requires |vs| >= 4
    ensures Emitted(vs[4..], v) == Emitted(vs, v)
  {
    hide First, Second, Third;
    assert |vs| > 4 ==> vs[4..][|vs| - 5] == vs[|vs| - 1];
  }

  lemma LastJoinNext(vs: seq<Sextet>, v: Sextet)
    requires |vs| < 4
    ensures Join(vs + [v]) == Join(vs) + Emitted(vs, v)
  {
    hide First, Second, Third, Join, Emitted;
    var next := vs + [v];
    assert |next| == |vs| + 1 && next[|vs|] == v && forall i :: 0 <= i < |vs| ==> next[i] == vs[i];
    JoinShort(vs);
    JoinShort(next);
    EmittedIs(vs, v);
    if |vs| == 3 {
      JoinedThree(First(vs[0], vs[1]), Second(vs[1], vs[2]), Third(vs[2], v));
    } else if |vs| == 2 {
      JoinedThree(First(vs[0], vs[1]), Second(vs[1], v), 0);
    }
  }

  lemma EmittedIs(vs: seq<Sextet>, v: Sextet)
    requires |vs| < 4
    ensures |vs| == 0 ==> Emitted(vs, v) == []
    ensures |vs| == 1 ==> Emitted(vs, v) == [First(vs[0], v)]
    ensures |vs| == 2 ==> Emitted(vs, v) == [Second(vs[1], v)]
    ensures |vs| == 3 ==> Emitted(vs, v) == [Third(vs[2], v)]
  {
    hide First, Second, Third;
  }

  lemma JoinedThree(a: uint8, b: uint8, c: uint8)
    ensures [a, b] + [c] == [a, b, c] && [a] + [b] == [a, b]
  {
  }

  lemma JoinShort(vs: seq<Sextet>)
    requires |vs| <= 4
    ensures |vs| < 2 ==> Join(vs) == []
    ensures |vs| == 2 ==> Join(vs) == [First(vs[0], vs[1])]
    ensures |vs| == 3 ==> Join(vs) == [First(vs[0], vs[1]), Second(vs[1], vs[2])]
    ensures |vs| == 4 ==> Join(vs) == [First(vs[0], vs[1]), Second(vs[1], vs[2]), Third(vs[2], vs[3])]
  {
    hide First, Second, Third;
  }

  /** How many bits are waiting after n groups. */
  function Waiting(n: nat): nat {
    if n % 4 == 0 then 0 else if n % 4 == 1 then 6 else if n % 4 == 2 then 4 else 2
  }

  lemma SmallPowers()
    ensures Pow2(0) == 1 && Pow2(2) == 4 && Pow2(4) == 16
  {
  }

  /** What one more group makes of the accumulator's low twelve bits. */
  lemma LowTwelve(acc: nat, u: nat, v: nat)
    requires u < 64 && v < 64 && acc % 64 == u
    ensures (acc * 64 + v) % WORD % 4096 == u * 64 + v
  {
    var x, q := acc * 64 + v, acc / 64;
    var k := x / WORD;
    assert x == q * 4096 + (u * 64 + v);
    assert x % WORD == x - k * WORD == (q - k * 0x10_0000) * 4096 + (u * 64 + v);
    QuotientIs(x % WORD, 4096, q - k * 0x10_0000, u * 64 + v);
  }

  /** The accumulator forgets its high bits, but never one that is still needed. */
  lemma AccumulatorByte(acc: nat, u: nat, v: nat, r: nat)
    requires u < 64 && v < 64 && acc % 64 == u && 1 <= r <= 3
    ensures var next := (acc * 64 + v) % WORD;
            next % 64 == v && next / Pow2(Waiting(r + 1)) % 256 ==
              (if r == 1 then u * 4 + v / 16 else if r == 2 then u % 16 * 16 + v / 4 else u % 4 * 64 + v)
  {
    hide Pow2;
    var next := (acc * 64 + v) % WORD;
    LowTwelve(acc, u, v);
    SmallPowers();
    ByteFromTwelve(next, next / 4096, u, v);
  }

  lemma ByteFromTwelve(next: nat, q: nat, u: nat, v: nat)
    requires u < 64 && v < 64 && next == q * 4096 + u * 64 + v
    ensures next % 64 == v && next / 16 % 256 == u * 4 + v / 16
    ensures next / 4 % 256 == u % 16 * 16 + v / 4 && next % 256 == u % 4 * 64 + v
  {
    QuotientIs(next, 64, q * 64 + u, v);
    QuotientIs(next, 16, q * 256 + u * 4 + v / 16, v % 16);
    QuotientIs(q * 256 + u * 4 + v / 16, 256, q, u * 4 + v / 16);
    QuotientIs(next, 4, q * 1024 + u * 16 + v / 4, v % 4);
    QuotientIs(q * 1024 + u * 16 + v / 4, 256, q * 4 + u / 16, u % 16 * 16 + v / 4);
    QuotientIs(next, 256, q * 16 + u / 4, u % 4 * 64 + v);
  }

  /** One turn of the loop: the bits waiting, and the byte emitted. */
  lemma TurnIs(acc: nat, vs: seq<Sextet>, v: Sextet)
    requires acc < WORD && (vs != [] ==> acc % 64 == vs[|vs| - 1] as int)
    ensures var next, bits := (acc * 64 + v as int) % WORD, Waiting(|vs|) + 6;
            && next % 64 == v as int
            && Waiting(|vs| + 1) == (if bits >= 8 then bits - 8 else bits)
            && Emitted(vs, v) == if bits >= 8 then [(next / Pow2(bits - 8) % 256) as uint8] else []
  {
    hide Pow2, Waiting;
    var w := v as int;
    WaitingNext(|vs|);
    if |vs| % 4 == 0 {
      LowTwelve(acc, acc % 64, w);
      LastSix((acc * 64 + w) % WORD, acc % 64, w);
    } else {
      AccumulatorByte(acc, vs[|vs| - 1] as int, w, |vs| % 4);
    }
  }

  lemma WaitingNext(n: nat)
    ensures Waiting(n + 1) == (if Waiting(n) + 6 >= 8 then Waiting(n) - 2 else Waiting(n) + 6)
    ensures Waiting(n) + 6 >= 8 <==> n % 4 != 0
    ensures Waiting(n + 1) == Waiting(n % 4 + 1)
  {
  }

  lemma LastSix(x: nat, u: nat, v: nat)
    requires u < 64 && v < 64 && x % 4096 == u * 64 + v
    ensures x % 64 == v
  {
    QuotientIs(x, 64, x / 4096 * 64 + u, v);
  }

  method Base64Decode(s: string, out: array<uint8>) returns (r: Outcome)
    modifies out
    ensures var tooLong := |s| / 4 > INT_MAX / 3;
            var size := |Core(s)| / 4 * 3 + (if |Core(s)| % 4 == 2 then 1 else if |Core(s)| % 4 == 3 then 2 else 0);
            && (tooLong ==> r == NoMemory)
            && (!tooLong && !WellPadded(s) ==> r == Invalid)
            && (!tooLong && WellPadded(s) && (size > INT_MAX || size > out.Length) ==> r == NoMemory)
            && (!tooLong && WellPadded(s) && size <= INT_MAX && size <= out.Length ==>
                  (Decode(s) == Malformed ==> r == Invalid)
                  && (Decode(s).Bytes? ==> r == Wrote(size) && Decode(s) == Bytes(out[..size])))
  {
    if |s| / 4 > INT_MAX / 3 {
      return NoMemory;
    }
    hide Join, Values, AllDigits;
    var length := Stripped(s);
    var padding := |s| - length;
    if padding > 2 || (padding != 0 && (|s| % 4 != 0 || length % 4 != 4 - padding)) {
      return Invalid;
    }
    if length % 4 == 1 {
      return Invalid;
    }
    var size := length / 4 * 3 + (if length % 4 == 2 then 1 else if length % 4 == 3 then 2 else 0);
    if size > INT_MAX || out.Length < size {
      return NoMemory;
    }
    var ok := DecodeGroups(Core(s), s, length, out, size);
    r := if ok then Wrote(size) else Invalid;
  }

  /** The length without the equals signs at the end. */
  method Stripped(s: string) returns (length: nat)
    ensures length <= |s| && Core(s) == s[..length]
  {
    length := |s|;
    assert s[..length] == s;
    while length > 0 && s[length - 1] == '='
      invariant length <= |s| && Core(s[..length]) == Core(s)
    {
      assert s[..length][..length - 1] == s[..length - 1];
      length := length - 1;
    }
  }

  lemma {:induction false} JoinLength(vs: seq<Sextet>)
    ensures |Join(vs)| == |vs| / 4 * 3 + (if |vs| % 4 == 2 then 1 else if |vs| % 4 == 3 then 2 else 0)
  {
    if |vs| >= 4 {
      JoinLength(vs[4..]);
    }
  }

  lemma JoinFits(vs: seq<Sextet>, length: nat, size: nat)
    requires |vs| <= length
    requires size == length / 4 * 3 + (if length % 4 == 2 then 1 else if length % 4 == 3 then 2 else 0)
    ensures |Join(vs)| <= size && (|vs| == length && length % 4 != 1 ==> |Join(vs)| == size)
  {
    JoinLength(vs);
  }

  lemma JoinNothing(vs: seq<Sextet>)
    ensures vs == [] ==> Join(vs) == [] && Waiting(0) == 0
  {
  }

  lemma ValuesAre(s: string, vs: seq<Sextet>)
    requires |vs| == |s| && forall k :: 0 <= k < |s| ==> DigitValue(s[k]) == vs[k] as int
    ensures AllDigits(s) && Values(s) == vs
  {
  }

  method DecodeGroups(ghost core: string, s: string, length: nat, out: array<uint8>, size: nat) returns (ok: bool)
    requires length <= |s| && core == s[..length] && size <= out.Length && length % 4 != 1
    requires size == length / 4 * 3 + (if length % 4 == 2 then 1 else if length % 4 == 3 then 2 else 0)
    modifies out
    ensures ok == AllDigits(core)
    ensures ok ==> out[..size] == Join(Values(core))
  {
    hide Join, Emitted, Pow2, Waiting, DigitValue, Values;
    var o, bits := 0, 0;
    var acc: uint32 := 0;
    ghost var vs: seq<Sextet> := [];
    var i := 0;
    JoinNothing(vs);
    while i < length
      invariant 0 <= i <= length && |vs| == i && bits == Waiting(i)
      invariant forall k :: 0 <= k < i ==> DigitValue(core[k]) == vs[k] as int
      invariant i > 0 ==> acc as nat % 64 == vs[i - 1] as nat
      invariant o == |Join(vs)| && o <= size && out[..o] == Join(vs)
    {
      assert core[i] == s[i];
      var value := DigitValue(s[i]);
      if value < 0 {
        return false;
      }
      ghost var before := acc as nat;
      acc := ((acc as nat * 64 + value) % WORD) as uint32;
      bits := bits + 6;
      ghost var v := value as Sextet;
      TurnIs(before, vs, v);
      JoinNext(vs, v);
      JoinFits(vs + [v], length, size);
      if bits >= 8 {
        bits := bits - 8;
        out[o] := (acc as nat / Pow2(bits) % 256) as uint8;
        o := o + 1;
      }
      vs := vs + [v];
      i := i + 1;
    }
    ValuesAre(core, vs);
    JoinFits(vs, length, size);
    ok := true;
  }
}
