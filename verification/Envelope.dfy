/**
 * Encrypted envelopes, in JSON and in binary form: what is sealed opens to the same plaintext, across the cipher mode,
 * the text codecs and the JSON reader.
 */
module Envelope {
  import opened Status
  import opened Words
  import opened Bits
  import opened JsonTree
  import opened JsonTokens
  import opened JsonPrint
  import opened JsonGrammar
  import opened JsonEscape
  import opened JsonMembers
  import Codec
  import Gf128
  import Gcm
  import Wire

  type byte = Gf128.byte
  type Cipher = Gf128.Block -> Gf128.Block

  const MAX_TOKENS: nat := 32
  const FIELD_MAX: nat := 128
  const NONCE_LEN: nat := 16
  const TAG_LEN: nat := 16

  datatype Opened = Failed(rc: int) | Opened(plaintext: seq<byte>)

  // ------------------------------------------------------------------------------- the binary form

  function SealBinary(cipher: Cipher, nonce: seq<byte>, plaintext: seq<byte>): seq<byte>
    requires |nonce| == NONCE_LEN
  {
    var box := Gcm.Seal(cipher, nonce, [], plaintext);
    nonce + box.ciphertext + box.tag
  }

  /** Nonce, ciphertext and tag; nothing that short of one byte of ciphertext is taken. */
  function OpenBinary(cipher: Cipher, data: seq<byte>, cap: nat): Opened {
    if |data| <= NONCE_LEN + TAG_LEN then Failed(ERR_INVALID)
    else
      var n := |data| - NONCE_LEN - TAG_LEN;
      if cap < n then Failed(ERR_NOMEM)
      else
        match Gcm.Open(cipher, data[..NONCE_LEN], [], Gcm.Sealed(data[NONCE_LEN..NONCE_LEN + n], data[NONCE_LEN + n..]))
        case Refused => Failed(ERR_AUTH)
        case Plain(text) => Opened(text)
  }

  /**
   * The binary form opens to a text exactly when it is the sealing of that text under some nonce, the text fits the
   * buffer and is not empty: an empty plaintext can be sealed but never opened.
   */
  lemma BinaryOpensIff(cipher: Cipher, data: seq<byte>, text: seq<byte>, cap: nat)
    ensures OpenBinary(cipher, data, cap) == Opened(text) <==>
            |data| >= NONCE_LEN && data == SealBinary(cipher, data[..NONCE_LEN], text) && 0 < |text| <= cap
  {
    hide Gcm.Seal, Gcm.Open;
    if |data| > NONCE_LEN + TAG_LEN {
      var n := |data| - NONCE_LEN - TAG_LEN;
      var nonce := data[..NONCE_LEN];
      var box := Gcm.Sealed(data[NONCE_LEN..NONCE_LEN + n], data[NONCE_LEN + n..]);
      Gcm.OpensIffSealed(cipher, nonce, [], box, text);
      SealedLength(cipher, nonce, text);
      var made := Gcm.Seal(cipher, nonce, [], text);
      assert data == nonce + box.ciphertext + box.tag;
      Parts(nonce, box.ciphertext, box.tag, made.ciphertext, made.tag);
    } else if |data| >= NONCE_LEN {
      SealedLength(cipher, data[..NONCE_LEN], text);
    }
  }

  /** What was sealed from nothing: the nonce and the tag, which opening takes for too short. */
  lemma EmptyNeverOpens(cipher: Cipher, nonce: seq<byte>, cap: nat)
    requires |nonce| == NONCE_LEN
    ensures OpenBinary(cipher, SealBinary(cipher, nonce, []), cap) == Failed(ERR_INVALID)
  {
    SealedLength(cipher, nonce, []);
  }

  lemma Parts(n: seq<byte>, c: seq<byte>, t: seq<byte>, c': seq<byte>, t': seq<byte>)
    requires |t| == |t'|
    ensures n + c + t == n + c' + t' <==> c == c' && t == t'
  {
    if n + c + t == n + c' + t' {
      var a, b := n + c + t, n + c' + t';
      assert |c| == |c'|;
      assert a[|n|..|n| + |c|] == c && b[|n|..|n| + |c|] == c';
      assert a[|n| + |c|..] == t && b[|n| + |c|..] == t';
    }
  }

  lemma SealedLength(cipher: Cipher, nonce: seq<byte>, text: seq<byte>)
    ensures |Gcm.Seal(cipher, nonce, [], text).ciphertext| == |text|
  {
  }

  // ------------------------------------------------------------------------------- the fields of the JSON form

  datatype Read = Unread(rc: int) | Data(data: seq<uint8>)

  function HexInto(s: string, cap: nat): Read {
    if |s| % 2 != 0 then Unread(ERR_INVALID)
    else if |s| / 2 > INT_MAX || cap < |s| / 2 then Unread(ERR_NOMEM)
    else
      match Codec.Unhex(s)
      case Malformed => Unread(ERR_INVALID)
      case Bytes(data) => Data(data)
  }

  function Base64Into(s: string, cap: nat): Read {
    var core := Codec.Core(s);
    var size := |core| / 4 * 3 + (if |core| % 4 == 2 then 1 else if |core| % 4 == 3 then 2 else 0);
    if |s| / 4 > INT_MAX / 3 then Unread(ERR_NOMEM)
    else if !Codec.WellPadded(s) then Unread(ERR_INVALID)
    else if size > INT_MAX || cap < size then Unread(ERR_NOMEM)
    else
      match Codec.Decode(s)
      case Malformed => Unread(ERR_INVALID)
      case Bytes(data) => Data(data)
  }

  /** A nonce is taken for hexadecimal when it is nothing but digits and would make 16 or 12 bytes. */
  predicate LooksHex(s: string) {
    s != "" && |s| % 2 == 0 && (forall i :: 0 <= i < |s| ==> Codec.HexNibble(s[i]) >= 0)
    && (|s| / 2 == 16 || |s| / 2 == 12)
  }

  function Into(hex: bool, s: string, cap: nat): Read {
    if hex then HexInto(s, cap) else Base64Into(s, cap)
  }

  function OpenFields(cipher: Cipher, ciphertext: string, tag: string, nonce: string, cap: nat): Opened {
    var hex := LooksHex(nonce);
    match Into(hex, nonce, NONCE_LEN)
    case Unread(rc) => Failed(rc)
    case Data(n) =>
      match Into(hex, tag, TAG_LEN)
      case Unread(rc) => Failed(rc)
      case Data(t) =>
        match Into(hex, ciphertext, cap)
        case Unread(rc) => Failed(rc)
        case Data(c) =>
          if |t| != TAG_LEN || |n| == 0 then Failed(ERR_INVALID)
          else
            match Gcm.Open(cipher, VectorsOf(n), [], Gcm.Sealed(VectorsOf(c), VectorsOf(t)))
            case Refused => Failed(ERR_AUTH)
            case Plain(text) => Opened(text)
  }

  lemma {:induction false} HexIsHex(data: seq<uint8>)
    ensures forall i :: 0 <= i < |Codec.Hex(data)| ==> Codec.HexNibble(Codec.Hex(data)[i]) >= 0
  {
    if data != [] {
      HexIsHex(data[1..]);
      Codec.NibbleOfDigit(data[0] as nat / 16);
      Codec.NibbleOfDigit(data[0] as nat % 16);
    }
  }

  lemma HexReads(data: seq<uint8>, cap: nat)
    requires |data| <= cap && |data| <= INT_MAX
    ensures HexInto(Codec.Hex(data), cap) == Data(data)
  {
    hide Codec.Hex, Codec.Unhex, Codec.Lower;
    LowerHex(data);
    Codec.UnhexIffHex(Codec.Hex(data), data);
  }

  lemma {:induction false} LowerHex(data: seq<uint8>)
    ensures Codec.Lower(Codec.Hex(data)) == Codec.Hex(data)
  {
    var s := Codec.Hex(data);
    if data != [] {
      LowerHex(data[1..]);
      assert s[2..] == Codec.Hex(data[1..]);
      forall i | 0 <= i < |s|
        ensures Codec.Lower(s)[i] == s[i]
      {
        if i >= 2 {
          assert Codec.Lower(s[2..])[i - 2] == s[2..][i - 2];
        }
      }
    }
  }

  lemma Base64Reads(data: seq<uint8>, cap: nat)
    requires |data| <= cap && |data| <= INT_MAX / 4 * 3
    ensures Base64Into(Codec.Encode(data), cap) == Data(data)
  {
    hide Codec.Encode, Codec.Core, Codec.Join, Codec.Values, Codec.Split, Codec.Canonical, Codec.AllDigits;
    var s := Codec.Encode(data);
    Codec.DecodeEncode(data);
    Codec.EncodeIs(data);
    Codec.JoinLength(Codec.Values(Codec.Core(s)));
  }

  /** The text form of a nonce that is not hexadecimal is never taken for it. */
  lemma Base64NotHex(nonce: seq<uint8>)
    requires |nonce| == 12 || |nonce| == 16
    ensures !LooksHex(Codec.Encode(nonce))
  {
    hide Codec.Split, Codec.Letters;
    var s := Codec.Encode(nonce);
    Codec.EncodeIs(nonce);
    if |nonce| == 16 {
      assert s[|s| - 1] == '=';
    }
  }

  /** Sealing in hexadecimal, as this library does it. */
  lemma HexFieldsOpen(cipher: Cipher, nonce: seq<byte>, text: seq<byte>, cap: nat)
    requires |nonce| == NONCE_LEN && |text| <= cap && |text| <= INT_MAX
    ensures var box := Gcm.Seal(cipher, nonce, [], text);
            OpenFields(cipher, Codec.Hex(WordsOf(box.ciphertext)), Codec.Hex(WordsOf(box.tag)), Codec.Hex(WordsOf(nonce)), cap)
            == Opened(text)
  {
    hide Gcm.Seal, Gcm.Open, HexInto;
    var box := Gcm.Seal(cipher, nonce, [], text);
    SealedLength(cipher, nonce, text);
    HexReads(WordsOf(nonce), NONCE_LEN);
    HexReads(WordsOf(box.tag), TAG_LEN);
    HexReads(WordsOf(box.ciphertext), cap);
    HexIsHex(WordsOf(nonce));
    VectorsAndBack(nonce);
    VectorsAndBack(box.tag);
    VectorsAndBack(box.ciphertext);
    Gcm.OpensIffSealed(cipher, nonce, [], box, text);
  }

  /** Sealing in Base64, as peers may do it, with a nonce of either length. */
  lemma Base64FieldsOpen(cipher: Cipher, nonce: seq<byte>, text: seq<byte>, cap: nat)
    requires (|nonce| == 12 || |nonce| == NONCE_LEN) && |text| <= cap && |text| <= INT_MAX / 4 * 3
    ensures var box := Gcm.Seal(cipher, nonce, [], text);
            OpenFields(cipher, Codec.Encode(WordsOf(box.ciphertext)), Codec.Encode(WordsOf(box.tag)),
                       Codec.Encode(WordsOf(nonce)), cap)
            == Opened(text)
  {
    hide Gcm.Seal, Gcm.Open, Base64Into, LooksHex, Codec.Encode;
    var box := Gcm.Seal(cipher, nonce, [], text);
    SealedLength(cipher, nonce, text);
    Base64NotHex(WordsOf(nonce));
    Base64Reads(WordsOf(nonce), NONCE_LEN);
    Base64Reads(WordsOf(box.tag), TAG_LEN);
    Base64Reads(WordsOf(box.ciphertext), cap);
    VectorsAndBack(nonce);
    VectorsAndBack(box.tag);
    VectorsAndBack(box.ciphertext);
    Gcm.OpensIffSealed(cipher, nonce, [], box, text);
  }

  // ------------------------------------------------------------------------------- the JSON around them

  /** The envelope as this library writes it. */
  function EnvelopeText(ciphertext: string, tag: string, nonce: string): string {
    "{\"ciphertext\":\"" + ciphertext + "\",\"tag\":\"" + tag + "\",\"nonce\":\"" + nonce + "\"}"
  }

  /** The envelope of a sealed text: digits for all three fields. */
  function HexEnvelope(box: Gcm.Sealed, nonce: seq<byte>): string {
    EnvelopeText(Codec.Hex(WordsOf(box.ciphertext)), Codec.Hex(WordsOf(box.tag)), Codec.Hex(WordsOf(nonce)))
  }

  lemma HexEnvelopeLength(box: Gcm.Sealed, nonce: seq<byte>)
    requires |nonce| == NONCE_LEN
    ensures |HexEnvelope(box, nonce)| == 2 * |box.ciphertext| + 101
  {
  }

  /** A size returned as a 32-bit integer. */
  function AsInt(n: nat): int {
    if n <= INT_MAX then n else n - WORD
  }

  /**
   * Seals a text where it stands and writes the envelope. The buffer must hold eight bytes more than envelope and
   * terminator take, or the call is refused; the text has been sealed by then.
   */
  method EncryptJson(cipher: Cipher, nonce: seq<byte>, plaintext: array<byte>, out: array<char>) returns (rc: int)
    requires |nonce| == NONCE_LEN
    modifies plaintext, out
    ensures var box := Gcm.Seal(cipher, nonce, [], old(plaintext[..])); var text := HexEnvelope(box, nonce);
            && plaintext[..] == box.ciphertext
            && rc == Written(text, plaintext.Length, out.Length)
            && (rc != ERR_NOMEM ==> |text| < out.Length && out[..|text|] == text && out[|text|] == '\0')
  {
    hide Gcm.Seal, Codec.Hex, EnvelopeText, WordsOf;
    var status, tag := Gcm.Encrypt(cipher, nonce, [], plaintext, plaintext);
    HexEnvelopeLength(Gcm.Sealed(plaintext[..], tag), nonce);
    if out.Length < 2 * plaintext.Length + 32 + 32 + 45 + 1 {
      return ERR_NOMEM;
    }
    var pos;
    rc, pos := WriteFields(out, WordsOf(plaintext[..]), WordsOf(tag), WordsOf(nonce));
    if rc != OK { return; }
    rc := AsInt(pos);
  }

  method WriteFields(out: array<char>, ciphertext: seq<uint8>, tag: seq<uint8>, nonce: seq<uint8>)
    returns (rc: int, pos: nat)
    requires |tag| == |nonce| == 16 && out.Length >= 2 * |ciphertext| + 102
    modifies out
    ensures var text := EnvelopeText(Codec.Hex(ciphertext), Codec.Hex(tag), Codec.Hex(nonce));
            && rc == (if |ciphertext| > INT_MAX / 2 then ERR_NOMEM else OK)
            && (rc == OK ==> pos == |text| < out.Length && out[..pos] == text && out[pos] == '\0')
  {
    hide Codec.Hex;
    rc, pos := AppendHex(out, 0, "{\"ciphertext\":\"", ciphertext);
    if rc != OK { return; }
    ghost var first := "{\"ciphertext\":\"" + Codec.Hex(ciphertext);
    assert out[..pos] == first;
    rc, pos := AppendHex(out, pos, "\",\"tag\":\"", tag);
    ghost var second := first + "\",\"tag\":\"" + Codec.Hex(tag);
    assert out[..pos] == second;
    rc, pos := AppendHex(out, pos, "\",\"nonce\":\"", nonce);
    rc, pos := Append(out, pos, "\"}");
  }

  /** A label, and bytes in hexadecimal behind it. */
  method AppendHex(out: array<char>, pos: nat, lead: string, data: seq<uint8>) returns (rc: int, end: nat)
    requires pos + |lead| + 2 * |data| + 1 <= out.Length
    modifies out
    ensures rc == if |data| > INT_MAX / 2 then ERR_NOMEM else OK
    ensures rc == OK ==> end == pos + |lead| + 2 * |data| && out[..end] == old(out[..pos]) + lead + Codec.Hex(data)
  {
    hide Codec.Hex;
    rc, end := Append(out, pos, lead);
    var r := Codec.HexEncode(data, out, end);
    match r
    case Wrote(n) => end := end + n;
    case _ => rc := ERR_NOMEM;
  }

  /** The writer's answer for a text of a certain length: its envelope, unless the buffer lacks eight bytes of slack. */
  function Written(envelope: string, length: nat, cap: nat): int {
    if cap < |envelope| + 9 || length > INT_MAX / 2 then ERR_NOMEM else AsInt(|envelope|)
  }

  /** A buffer that holds envelope and terminator, and a call that is refused nevertheless. */
  lemma SlackIsAsked(cipher: Cipher, nonce: seq<byte>)
    requires |nonce| == NONCE_LEN
    ensures var envelope := HexEnvelope(Gcm.Seal(cipher, nonce, [], []), nonce);
            |envelope| + 1 == 102 && Written(envelope, 0, 102) == ERR_NOMEM && Written(envelope, 0, 110) == 101
  {
    hide Gcm.Seal, HexEnvelope;
    SealedLength(cipher, nonce, []);
    HexEnvelopeLength(Gcm.Seal(cipher, nonce, [], []), nonce);
  }

  ghost function OpenTokens(cipher: Cipher, js: string, ts: seq<Token>, cap: nat): Opened
    requires Wire.StringsClose(js, ts) && |ts| > 0
  {
    if ts[0].kind != Object then Failed(ERR_JSON)
    else
      match Wire.Field(js, ts, "nonce", FIELD_MAX)
      case Refusal(rc) => Failed(rc)
      case Copied(Absent) => Failed(ERR_MISSING)
      case Copied(Present(nonce)) =>
        match Wire.Field(js, ts, "tag", FIELD_MAX)
        case Refusal(rc) => Failed(rc)
        case Copied(Absent) => Failed(ERR_MISSING)
        case Copied(Present(tag)) =>
          var got := ObjectGet(js, ts, 0, "ciphertext");
          if got < 0 || got >= |ts| || ts[got].kind != String then Failed(ERR_MISSING)
          else OpenFields(cipher, js[ts[got].start..ts[got].end], tag, nonce, cap)
  }

  ghost function OpenJson(cipher: Cipher, js: string, cap: nat): Opened {
    if |js| > INT_MAX then Failed(ERR_INVALID)
    else
      match ParseDocument(js, MAX_TOKENS)
      case Refused(rc) => Failed(rc)
      case Accepted(root) =>
        Wire.AcceptedStringsClose(js, MAX_TOKENS);
        OpenTokens(cipher, js, Flatten(root, -1, 0), cap)
  }

  // ------------------------------------------------------------------------------- the program

  method LooksHexAt(nonce: string) returns (hex: bool)
    ensures hex == LooksHex(nonce)
  {
    if |nonce| == 0 || |nonce| % 2 != 0 {
      return false;
    }
    for i := 0 to |nonce|
      invariant forall k :: 0 <= k < i ==> Codec.HexNibble(nonce[k]) >= 0
    {
      if Codec.HexNibble(nonce[i]) < 0 {
        return false;
      }
    }
    var bytes := |nonce| / 2;
    hex := bytes == 16 || bytes == 12;
  }

  /** Decodes a field into a buffer: how many bytes, or the error. */
  method IntoAt(hex: bool, s: string, out: array<uint8>) returns (rc: int)
    modifies out
    ensures match Into(hex, s, out.Length)
            case Unread(code) => rc == code < 0
            case Data(data) => rc == |data| <= out.Length && out[..rc] == data
  {
    hide Codec.Unhex, Codec.Decode, Codec.WellPadded, Codec.Core;
    var r;
    if hex {
      r := Codec.HexDecode(s, out);
    } else {
      r := Codec.Base64Decode(s, out);
    }
    rc := match r case Wrote(n) => n case Invalid => ERR_INVALID case NoMemory => ERR_NOMEM;
  }

  /** Opens what the three fields hold; the text replaces the ciphertext in the buffer. */
  method OpenFieldsAt(cipher: Cipher, ciphertext: string, tag: string, nonce: string, out: array<uint8>)
    returns (rc: int, length: nat)
    modifies out
    ensures match OpenFields(cipher, ciphertext, tag, nonce, out.Length)
            case Failed(code) => rc == code != OK
            case Opened(text) => rc == OK && length == |text| <= out.Length && out[..length] == WordsOf(text)
                                 && (length < out.Length ==> out[length] == 0)
  {
    hide Into, LooksHex, Gcm.Open;
    length := 0;
    var hex := LooksHexAt(nonce);
    var n, t := new uint8[NONCE_LEN](_ => 0), new uint8[TAG_LEN](_ => 0);
    var nonceLength := IntoAt(hex, nonce, n);
    var tagLength := IntoAt(hex, tag, t);
    var textLength := IntoAt(hex, ciphertext, out);
    if nonceLength < 0 || tagLength < 0 || textLength < 0 {
      rc := if nonceLength < 0 then nonceLength else if tagLength < 0 then tagLength else textLength;
      return;
    }
    if tagLength != TAG_LEN || nonceLength == 0 {
      return ERR_INVALID, 0;
    }
    rc := Unseal(cipher, n[..nonceLength], t[..tagLength], out, textLength);
    if rc != OK {
      return;
    }
    length := textLength;
    if length < out.Length {
      out[length] := 0;
    }
  }

  method Unseal(cipher: Cipher, nonce: seq<uint8>, tag: seq<uint8>, out: array<uint8>, length: nat) returns (rc: int)
    requires |nonce| > 0 && |tag| == TAG_LEN && length <= out.Length
    modifies out
    ensures match Gcm.Open(cipher, VectorsOf(nonce), [], Gcm.Sealed(VectorsOf(old(out[..length])), VectorsOf(tag)))
            case Refused => rc == ERR_AUTH
            case Plain(text) => rc == OK && |text| == length && out[..length] == WordsOf(text)
  {
    hide Gcm.Open;
    ghost var sealed := out[..length];
    var box := new byte[length](i requires 0 <= i < length reads out => VectorOf(out[i]));
    assert box[..] == VectorsOf(sealed);
    rc := Gcm.Decrypt(cipher, VectorsOf(nonce), [], box, VectorsOf(tag), box);
    if rc == OK {
      OpenedLength(cipher, VectorsOf(nonce), Gcm.Sealed(VectorsOf(sealed), VectorsOf(tag)));
      forall i | 0 <= i < length {
        out[i] := WordOf(box[i]);
      }
      assert out[..length] == WordsOf(box[..]);
    }
  }

  lemma OpenedLength(cipher: Cipher, nonce: seq<byte>, box: Gcm.Sealed)
    ensures var o := Gcm.Open(cipher, nonce, [], box); o.Plain? ==> |o.text| == |box.ciphertext|
  {
  }

  /** Tokenizes, copies two fields, and opens: the text with a terminator behind it if there is room, or an error. */
  method OpenJsonAt(cipher: Cipher, js: string, out: array<uint8>) returns (rc: int, length: nat)
    modifies out
    ensures match OpenJson(cipher, js, out.Length)
            case Failed(code) => rc == code != OK
            case Opened(text) => rc == OK && length == |text| <= out.Length && out[..length] == WordsOf(text)
                                 && (length < out.Length ==> out[length] == 0)
  {
    hide ParseDocument, Flatten, Wire.Field, ObjectGet, OpenFields, WordsOf;
    length := 0;
    var toks := new Token[MAX_TOKENS](_ => Token(Primitive, 0, 0, 0, -1));
    var count := JsonParser.Parse(js, toks, MAX_TOKENS);
    Wire.RefusalsNegative(js, MAX_TOKENS);
    if count < 0 {
      return count, 0;
    }
    Wire.AcceptedStringsClose(js, MAX_TOKENS);
    if toks[0].kind != Object {
      return ERR_JSON, 0;
    }
    ghost var ts := toks[..count];
    var nonce := Wire.CopyField(js, toks, count, "nonce", FIELD_MAX);
    if nonce.Refusal? { return nonce.rc, 0; }
    if nonce.field.Absent? { return ERR_MISSING, 0; }
    var tag := Wire.CopyField(js, toks, count, "tag", FIELD_MAX);
    if tag.Refusal? { return tag.rc, 0; }
    if tag.field.Absent? { return ERR_MISSING, 0; }
    Wire.GetInRange(js, ts, "ciphertext");
    var got := ObjectGetAt(js, toks, count, 0, "ciphertext");
    if got < 0 || toks[got].kind != String {
      return ERR_MISSING, 0;
    }
    assert ts[got] == toks[got];
    rc, length := OpenFieldsAt(cipher, js[toks[got].start..toks[got].end], tag.field.text, nonce.field.text, out);
  }

  // ------------------------------------------------------------------------------- there and back

  /** Characters of the two codecs, none of which JSON escapes. */
  predicate CleanChar(c: char) {
    'a' <= c <= 'z' || 'A' <= c <= 'Z' || '0' <= c <= '9' || c == '+' || c == '/' || c == '='
  }

  predicate Clean(s: string) {
    forall i :: 0 <= i < |s| ==> CleanChar(s[i])
  }

  lemma {:induction false} CleanEscapes(s: string)
    requires Clean(s)
    ensures EscapeAll(s) == s && IsBody(s)
  {
    if s != "" {
      CleanEscapes(s[..|s| - 1]);
      EscapeSnoc(s[..|s| - 1], s[|s| - 1]);
      assert EscapeByte(s[|s| - 1]) == [s[|s| - 1]];
      assert s == s[..|s| - 1] + [s[|s| - 1]];
    } else {
      EscapeNone();
    }
    EscapedIsBody(s);
  }

  function Fields(ciphertext: string, tag: string, nonce: string): (es: seq<Entry>)
    ensures |es| == 3
  {
    [Wire.Member("ciphertext", Quoted(ciphertext)), Wire.Member("tag", Quoted(tag)), Wire.Member("nonce", Quoted(nonce))]
  }

  lemma EnvelopePrints(c: string, t: string, n: string)
    ensures Print(Box(true, "", Fields(c, t, n))) == EnvelopeText(c, t, n)
  {
    hide PrintEntries, PrintEntry, Print;
    var es := Fields(c, t, n);
    var lc, lt, ln := Wire.Line("ciphertext", "\"" + c + "\""), Wire.Line("tag", "\"" + t + "\""), Wire.Line("nonce", "\"" + n + "\"");
    QuotedPrints(c);
    QuotedPrints(t);
    QuotedPrints(n);
    Wire.MemberPrints("ciphertext", Quoted(c));
    Wire.MemberPrints("tag", Quoted(t));
    Wire.MemberPrints("nonce", Quoted(n));
    Wire.EntriesFrom(es, 0, lc);
    Wire.EntriesFrom(es, 1, lt);
    Wire.EntriesFrom(es, 2, ln);
    assert es[0..] == es;
    BoxPrints(es);
    EnvelopeChained(c, t, n);
  }

  lemma QuotedPrints(s: string)
    ensures Print(Quoted(s)) == "\"" + s + "\""
  {
  }

  lemma BoxPrints(es: seq<Entry>)
    requires es != []
    ensures Print(Box(true, "", es)) == "{" + PrintEntries(true, es) + "}"
  {
  }

  lemma EnvelopeChained(c: string, t: string, n: string)
    ensures "{" + (Wire.Line("ciphertext", "\"" + c + "\"") + ("," + (Wire.Line("tag", "\"" + t + "\"") + ("," +
            Wire.Line("nonce", "\"" + n + "\""))))) + "}" == EnvelopeText(c, t, n)
  {
    LineIs("ciphertext", c, "\"ciphertext\":\"");
    LineIs("tag", t, "\"tag\":\"");
    LineIs("nonce", n, "\"nonce\":\"");
    hide Wire.Line;
    Assembled("\"ciphertext\":\"", c, "\"tag\":\"", t, "\"nonce\":\"", n, "{", ",", "\"", "}");
    assert "{" + "\"ciphertext\":\"" == "{\"ciphertext\":\"" && "\"" + "," + "\"tag\":\"" == "\",\"tag\":\"";
    assert "\"" + "," + "\"nonce\":\"" == "\",\"nonce\":\"" && "\"" + "}" == "\"}";
  }

  lemma LineIs(name: string, s: string, lead: string)
    requires lead == "\"" + name + "\":\""
    ensures Wire.Line(name, "\"" + s + "\"") == lead + s + "\""
  {
  }

  lemma Assembled(a: string, c: string, b: string, t: string, d: string, n: string, open: string, comma: string,
                  quote: string, close: string)
    ensures open + ((a + c + quote) + (comma + ((b + t + quote) + (comma + (d + n + quote))))) + close
         == (open + a) + c + (quote + comma + b) + t + (quote + comma + d) + n + (quote + close)
  {
  }

  lemma FieldsSound(c: string, t: string, n: string)
    requires Clean(c) && Clean(t) && Clean(n)
    ensures var v := Box(true, "", Fields(c, t, n));
            WellFormed(v) && Height(v) <= MAX_DEPTH && Size(NodeOf(v, 0)) <= MAX_TOKENS
  {
    hide IsBody, Print, Clean, Height, NodeOf, WellFormed, EscapeAll;
    var es := Fields(c, t, n);
    CleanEscapes(c);
    CleanEscapes(t);
    CleanEscapes(n);
    NamesSound();
    forall i | 0 <= i < 3
      ensures WellFormedEntry(true, es[i]) && Height(es[i].value) == 0
    {
      QuotedSound(es[i].value);
    }
    Wire.HeightsBound(es, MAX_DEPTH);
    Wire.BoxSound(es);
    SmallTree(es, 0);
  }

  lemma NamesSound()
    ensures IsBody("ciphertext") && IsBody("tag") && IsBody("nonce")
  {
    hide IsBody, EscapeAll;
    CleanEscapes("ciphertext");
    CleanEscapes("tag");
    CleanEscapes("nonce");
  }

  lemma QuotedSound(v: Json)
    requires v.Quoted? && IsBody(v.body)
    ensures WellFormed(v) && Height(v) == 0
  {
  }

  lemma {:induction false} NodesSize(es: seq<Entry>, at: nat)
    requires forall i :: 0 <= i < |es| ==> es[i].value.Quoted?
    ensures Sizes(NodesOf(true, es, at)) == 2 * |es|
  {
    hide PrintEntry, Print;
    if es != [] {
      NodesUnfold(true, es, at);
      OneSize(NodeOfEntry(true, es[0], at).kids[0]);
      if |es| > 1 {
        NodesSize(es[1..], at + |PrintEntry(true, es[0])| + 1);
      }
    }
  }

  lemma SmallTree(es: seq<Entry>, at: nat)
    requires |es| == 3 && forall i :: 0 <= i < |es| ==> es[i].value.Quoted?
    ensures Size(NodeOf(Box(true, "", es), at)) == 7
  {
    hide Print;
    NodesSize(es, at + 1);
  }

  /** Reading an envelope gives the texts it was written with. */
  lemma EnvelopeRead(cipher: Cipher, c: string, t: string, n: string, cap: nat)
    requires Clean(c) && Clean(t) && Clean(n) && |t| < FIELD_MAX && |n| < FIELD_MAX
    requires |EnvelopeText(c, t, n)| <= INT_MAX
    ensures OpenJson(cipher, EnvelopeText(c, t, n), cap) == OpenFields(cipher, c, t, n, cap)
  {
    hide EnvelopeText, Fields, Print, NodeOf, Flatten, ParseDocument, OpenFields, WellFormed, Height, Wire.Field;
    hide Wire.StringsClose, ObjectGet, Clean;
    var js, es := EnvelopeText(c, t, n), Fields(c, t, n);
    var v := Box(true, "", es);
    EnvelopePrints(c, t, n);
    FieldsSound(c, t, n);
    DocumentAccepted("", v, "", MAX_TOKENS);
    assert "" + Print(v) + "" == js;
    Wire.AcceptedStringsClose(js, MAX_TOKENS);
    var ts := Flatten(NodeOf(v, 0), -1, 0);
    Wire.BoxRoot(v);
    FieldText(c, t, n, 1, t, ts);
    FieldText(c, t, n, 2, n, ts);
    RawText(c, t, n, ts);
    FieldNames(c, t, n);
  }

  lemma FieldNames(c: string, t: string, n: string)
    ensures var es := Fields(c, t, n); es[0].name == "ciphertext" && es[1].name == "tag" && es[2].name == "nonce"
    ensures var es := Fields(c, t, n); es[1].value == Quoted(t) && es[2].value == Quoted(n)
    ensures forall i :: 0 <= i < 3 ==> FirstEntry(Fields(c, t, n), Fields(c, t, n)[i].name) == i
  {
    var es := Fields(c, t, n);
    forall i | 0 <= i < 3
      ensures FirstEntry(es, es[i].name) == i
    {
      hide FirstEntry, Fields;
      var k := FirstEntry(es, es[i].name);
      if k < i {
        NamesDiffer(c, t, n, k, i);
        assert false;
      }
    }
  }

  lemma NamesDiffer(c: string, t: string, n: string, i: nat, j: nat)
    requires i < j < 3
    ensures Fields(c, t, n)[i].name != Fields(c, t, n)[j].name
  {
    var es := Fields(c, t, n);
    assert es[0].name[0] == 'c' && es[1].name[0] == 't' && es[2].name[0] == 'n';
  }

  lemma FieldText(c: string, t: string, n: string, i: nat, s: string, ts: seq<Token>)
    requires 0 < i < 3 && s == (if i == 1 then t else n) && Clean(s) && |s| < FIELD_MAX
    requires var js := EnvelopeText(c, t, n);
             ts == Flatten(NodeOf(Box(true, "", Fields(c, t, n)), 0), -1, 0) && Wire.StringsClose(js, ts)
    ensures Wire.Field(EnvelopeText(c, t, n), ts, Fields(c, t, n)[i].name, FIELD_MAX) == Wire.Copied(Wire.Present(s))
  {
    hide EnvelopeText, Fields, Print, NodeOf, Flatten, Wire.Field, Wire.StringsClose, ObjectGet, Clean;
    var js, es := EnvelopeText(c, t, n), Fields(c, t, n);
    EnvelopePrints(c, t, n);
    assert At(js, 0, Print(Box(true, "", es)));
    FieldNames(c, t, n);
    MemberFound(js, Box(true, "", es), es[i].name, ts);
    CleanEscapes(s);
    ScalarOf(s);
    Wire.ScalarField(js, ts, es[i].name, Wire.Present(s), ValueStart(es[i], EntryStart(es, 1, i)), FIELD_MAX);
  }

  lemma ScalarOf(s: string)
    requires EscapeAll(s) == s
    ensures Wire.Scalar(Wire.Present(s)) == Quoted(s)
  {
  }

  lemma RawText(c: string, t: string, n: string, ts: seq<Token>)
    requires ts == Flatten(NodeOf(Box(true, "", Fields(c, t, n)), 0), -1, 0)
    ensures var js := EnvelopeText(c, t, n);
            var got := ObjectGet(js, ts, 0, "ciphertext");
            && 0 <= got < |ts| && ts[got].kind == String && 0 <= ts[got].start <= ts[got].end <= |js|
            && js[ts[got].start..ts[got].end] == c
  {
    hide EnvelopeText, Fields, Flatten, ObjectGet;
    var js, es := EnvelopeText(c, t, n), Fields(c, t, n);
    EnvelopePrints(c, t, n);
    assert At(js, 0, Print(Box(true, "", es)));
    FieldNames(c, t, n);
    FirstField(c, t, n);
    MemberFound(js, Box(true, "", es), es[0].name, ts);
    var p := ValueStart(es[0], EntryStart(es, 1, 0));
    QuotedPrints(c);
    AtSplit(js, p, "\"" + c, "\"");
    AtSplit(js, p, "\"", c);
  }

  lemma FirstField(c: string, t: string, n: string)
    ensures Fields(c, t, n)[0].value == Quoted(c)
  {
  }

  lemma {:induction false} HexClean(data: seq<uint8>)
    ensures Clean(Codec.Hex(data))
  {
    if data != [] {
      HexClean(data[1..]);
    }
  }

  /** Sealing a text, writing it as a JSON envelope and opening that gives the text back. */
  lemma SealedEnvelopeOpens(cipher: Cipher, nonce: seq<byte>, text: seq<byte>, cap: nat)
    requires |nonce| == NONCE_LEN && |text| <= cap
    requires var box := Gcm.Seal(cipher, nonce, [], text);
             |HexEnvelope(box, nonce)| <= INT_MAX
    ensures OpenJson(cipher, HexEnvelope(Gcm.Seal(cipher, nonce, [], text), nonce), cap) == Opened(text)
  {
    hide OpenJson, OpenFields, Codec.Hex, Clean, Gcm.Seal;
    var box := Gcm.Seal(cipher, nonce, [], text);
    HexClean(WordsOf(box.ciphertext));
    HexClean(WordsOf(box.tag));
    HexClean(WordsOf(nonce));
    SealedLength(cipher, nonce, text);
    EnvelopeRead(cipher, Codec.Hex(WordsOf(box.ciphertext)), Codec.Hex(WordsOf(box.tag)), Codec.Hex(WordsOf(nonce)), cap);
    HexFieldsOpen(cipher, nonce, text, cap);
  }

  lemma Base64Clean(data: seq<uint8>)
    ensures Clean(Codec.Encode(data)) && |Codec.Encode(data)| == (|data| + 2) / 3 * 4
  {
    hide Codec.Split;
    Codec.EncodeIs(data);
    assert forall v: Codec.Sextet :: CleanChar(Codec.Digit(v));
  }

  /** The same for an envelope in Base64, as peers write it, with a nonce of 12 or 16 bytes. */
  lemma PeerEnvelopeOpens(cipher: Cipher, nonce: seq<byte>, text: seq<byte>, cap: nat)
    requires (|nonce| == 12 || |nonce| == NONCE_LEN) && |text| <= cap && |text| <= INT_MAX / 4 * 3
    requires var box := Gcm.Seal(cipher, nonce, [], text);
             |EnvelopeText(Codec.Encode(WordsOf(box.ciphertext)), Codec.Encode(WordsOf(box.tag)), Codec.Encode(WordsOf(nonce)))|
             <= INT_MAX
    ensures var box := Gcm.Seal(cipher, nonce, [], text);
            OpenJson(cipher, EnvelopeText(Codec.Encode(WordsOf(box.ciphertext)), Codec.Encode(WordsOf(box.tag)),
                                          Codec.Encode(WordsOf(nonce))), cap) == Opened(text)
  {
    hide OpenJson, OpenFields, Codec.Encode, Clean, Gcm.Seal;
    var box := Gcm.Seal(cipher, nonce, [], text);
    Base64Clean(WordsOf(box.ciphertext));
    Base64Clean(WordsOf(box.tag));
    Base64Clean(WordsOf(nonce));
    EnvelopeRead(cipher, Codec.Encode(WordsOf(box.ciphertext)), Codec.Encode(WordsOf(box.tag)),
                 Codec.Encode(WordsOf(nonce)), cap);
    Base64FieldsOpen(cipher, nonce, text, cap);
  }
}
