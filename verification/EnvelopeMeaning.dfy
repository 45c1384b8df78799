/** When a JSON envelope opens to a text, read off the tree of any text the tokenizer accepts. */
module EnvelopeMeaning {
  import opened Status
  import opened Words
  import opened Bits
  import opened JsonTree
  import opened JsonTokens
  import opened JsonMeaning
  import opened WireMeaning
  import opened Envelope
  import Codec
  import CodecMeaning
  import Gcm
  import Wire

  /** The bytes that a field spells, in hexadecimal of either case or in Base64. */
  predicate Spells(hex: bool, s: string, data: seq<uint8>) {
    if hex then Codec.Lower(s) == Codec.Hex(data) else Codec.Decode(s) == Codec.Decoded.Bytes(data)
  }

  lemma HexLength(s: string, data: seq<uint8>)
    requires Codec.Lower(s) == Codec.Hex(data)
    ensures |s| == 2 * |data|
  {
    assert |Codec.Lower(s)| == |s|;
  }

  lemma DecodedLength(s: string)
    requires Codec.Decode(s).Bytes?
    ensures var core := Codec.Core(s);
            && Codec.WellPadded(s) && |core| <= |s|
            && |Codec.Decode(s).data|
               == |core| / 4 * 3 + (if |core| % 4 == 2 then 1 else if |core| % 4 == 3 then 2 else 0)
  {
    hide Codec.Join, Codec.Values, Codec.AllDigits, Codec.Core;
    Codec.JoinLength(Codec.Values(Codec.Core(s)));
  }

  lemma IntoIff(hex: bool, s: string, cap: nat, data: seq<uint8>)
    requires |s| <= INT_MAX
    ensures Into(hex, s, cap) == Data(data) <==> Spells(hex, s, data) && |data| <= cap
  {
    hide Codec.Unhex, Codec.Lower, Codec.Hex, Codec.Decode, Codec.Core, Codec.WellPadded;
    if hex {
      Codec.UnhexIffHex(s, data);
      if Codec.Lower(s) == Codec.Hex(data) {
        HexLength(s, data);
      }
    } else if Codec.Decode(s).Bytes? {
      DecodedLength(s);
    }
  }

  /** A nonce is taken for hexadecimal exactly when it is the digits, in either case, of 12 or 16 bytes. */
  lemma LooksHexIff(s: string)
    ensures LooksHex(s) <==> exists data :: Codec.Lower(s) == Codec.Hex(data) && (|data| == 12 || |data| == 16)
  {
    hide Codec.Lower, Codec.Hex, Codec.HexNibble, Codec.Unhex;
    forall data | Codec.Lower(s) == Codec.Hex(data) && (|data| == 12 || |data| == 16)
      ensures LooksHex(s)
    {
      HexLength(s, data);
      Codec.UnhexIffHex(s, data);
      DigitsOnly(s);
    }
    if LooksHex(s) {
      AllDecode(s);
      Codec.UnhexIffHex(s, Codec.Unhex(s).data);
      HexLength(s, Codec.Unhex(s).data);
    }
  }

  lemma {:induction false} DigitsOnly(s: string)
    requires Codec.Unhex(s).Bytes?
    ensures forall i :: 0 <= i < |s| ==> Codec.HexNibble(s[i]) >= 0
    decreases |s|
  {
    hide Codec.HexNibble;
    if s != "" {
      DigitsOnly(s[2..]);
      assert forall i :: 2 <= i < |s| ==> s[i] == s[2..][i - 2];
    }
  }

  lemma {:induction false} AllDecode(s: string)
    requires |s| % 2 == 0 && forall i :: 0 <= i < |s| ==> Codec.HexNibble(s[i]) >= 0
    ensures Codec.Unhex(s).Bytes?
    decreases |s|
  {
    hide Codec.HexNibble;
    if s != "" {
      AllDecode(s[2..]);
    }
  }

  /** Nonce, tag and ciphertext, in the codec the nonce looks like, are a sealing of the text. */
  ghost predicate Seals(cipher: Cipher, ciphertext: string, tag: string, nonce: string, cap: nat, text: seq<bv8>) {
    var hex := LooksHex(nonce);
    exists n, t, c :: Spells(hex, nonce, n) && Spells(hex, tag, t) && Spells(hex, ciphertext, c)
                      && IsSealing(cipher, c, t, n, cap, text)
  }

  ghost predicate IsSealing(cipher: Cipher, c: seq<uint8>, t: seq<uint8>, n: seq<uint8>, cap: nat, text: seq<bv8>) {
    && 1 <= |n| <= 16 && |t| == 16 && |c| <= cap
    && Gcm.Seal(cipher, VectorsOf(n), [], text) == Gcm.Sealed(VectorsOf(c), VectorsOf(t))
  }

  lemma FieldsIff(cipher: Cipher, ciphertext: string, tag: string, nonce: string, cap: nat, text: seq<bv8>)
    requires |ciphertext| <= INT_MAX && |tag| <= INT_MAX && |nonce| <= INT_MAX
    ensures OpenFields(cipher, ciphertext, tag, nonce, cap) == Opened.Opened(text) <==>
            Seals(cipher, ciphertext, tag, nonce, cap, text)
  {
    hide Into, LooksHex, Spells, Gcm.Seal, Gcm.Open;
    var hex := LooksHex(nonce);
    var a, b, d := Into(hex, nonce, NONCE_LEN), Into(hex, tag, TAG_LEN), Into(hex, ciphertext, cap);
    forall n, t, c | Spells(hex, nonce, n) && Spells(hex, tag, t) && Spells(hex, ciphertext, c)
                     && IsSealing(cipher, c, t, n, cap, text)
      ensures a == Data(n) && b == Data(t) && d == Data(c)
      ensures OpenFields(cipher, ciphertext, tag, nonce, cap) == Opened.Opened(text)
    {
      IntoIff(hex, nonce, NONCE_LEN, n);
      IntoIff(hex, tag, TAG_LEN, t);
      IntoIff(hex, ciphertext, cap, c);
      Gcm.OpensIffSealed(cipher, VectorsOf(n), [], Gcm.Sealed(VectorsOf(c), VectorsOf(t)), text);
    }
    if OpenFields(cipher, ciphertext, tag, nonce, cap) == Opened.Opened(text) {
      IntoIff(hex, nonce, NONCE_LEN, a.data);
      IntoIff(hex, tag, TAG_LEN, b.data);
      IntoIff(hex, ciphertext, cap, d.data);
      Gcm.OpensIffSealed(cipher, VectorsOf(a.data), [], Gcm.Sealed(VectorsOf(d.data), VectorsOf(b.data)), text);
      assert IsSealing(cipher, d.data, b.data, a.data, cap, text);
    }
  }

  /** The tree has the three members, all strings, nonce and tag short enough, and together they seal the text. */
  ghost predicate Holds(cipher: Cipher, js: string, root: Node, cap: nat, text: seq<bv8>) {
    && root.kind == Object && MemberOf(js, root, "ciphertext").Child?
    && var v := MemberOf(js, root, "ciphertext").value;
       && v.kind == String && v.start <= v.end <= |js|
       && exists n, t :: FieldIs(js, root, "nonce", 128, Wire.Present(n))
                         && FieldIs(js, root, "tag", 128, Wire.Present(t))
                         && Seals(cipher, js[v.start..v.end], t, n, cap, text)
  }

  lemma FieldShort(js: string, root: Node, name: string, s: string)
    requires FieldIs(js, root, name, FIELD_MAX, Wire.Present(s))
    ensures |s| < FIELD_MAX
  {
  }

  /** An envelope opens to a text exactly when it is short enough and accepted, and its tree holds that text sealed. */
  lemma OpensIff(cipher: Cipher, js: string, cap: nat, text: seq<bv8>)
    ensures OpenJson(cipher, js, cap) == Opened.Opened(text) <==>
            |js| < 0x8000_0000 && ParseDocument(js, 32).Accepted? && Holds(cipher, js, ParseDocument(js, 32).root, cap, text)
  {
    hide ParseDocument, Flatten, ObjectGet, Wire.Field, Wire.StringsClose, FieldIs, OpenFields, Seals, MemberOf, Says, IsString;
    var d := ParseDocument(js, MAX_TOKENS);
    if |js| <= INT_MAX && d.Accepted? {
      RootKind(d);
      if d.root.kind == Object {
        TokensOpenIff(cipher, js, d.root, cap, text);
      }
    }
  }

  lemma TokensOpenIff(cipher: Cipher, js: string, root: Node, cap: nat, text: seq<bv8>)
    requires |js| <= INT_MAX && ParseDocument(js, MAX_TOKENS) == Accepted(root) && root.kind == Object
    ensures Wire.StringsClose(js, Flatten(root, -1, 0))
    ensures OpenTokens(cipher, js, Flatten(root, -1, 0), cap) == Opened.Opened(text) <==> Holds(cipher, js, root, cap, text)
  {
    hide ParseDocument, Flatten, ObjectGet, Wire.Field, Wire.StringsClose, FieldIs, OpenFields, Seals, MemberOf, Says, IsString;
    var ts := Flatten(root, -1, 0);
    RootKind(Accepted(root));
    FieldMeans(js, MAX_TOKENS, root, "nonce", FIELD_MAX);
    FieldMeans(js, MAX_TOKENS, root, "tag", FIELD_MAX);
    MemberGets(js, MAX_TOKENS, root, "ciphertext");
    var m := MemberOf(js, root, "ciphertext");
    if m.Child? && m.value.kind == String {
      LocatedString(js, m.value);
      IsStringSpan(js, m.value);
      var raw := js[m.value.start..m.value.end];
      forall n, t | FieldIs(js, root, "nonce", FIELD_MAX, Wire.Present(n)) && FieldIs(js, root, "tag", FIELD_MAX, Wire.Present(t))
        ensures OpenFields(cipher, raw, t, n, cap) == Opened.Opened(text) <==> Seals(cipher, raw, t, n, cap, text)
      {
        FieldShort(js, root, "nonce", n);
        FieldShort(js, root, "tag", t);
        FieldsIff(cipher, raw, t, n, cap, text);
      }
    }
  }

  // ------------------------------------------------------------------------------- what is written

  /** The binary form: sixteen bytes of nonce, the ciphertext, sixteen bytes of tag. */
  lemma BinarySealingIs(cipher: Cipher, nonce: seq<byte>, text: seq<byte>)
    requires |nonce| == 16
    ensures var d, box := SealBinary(cipher, nonce, text), Gcm.Seal(cipher, nonce, [], text);
            |d| == |text| + 32 && d[..16] == nonce && d[16..|text| + 16] == box.ciphertext && d[|text| + 16..] == box.tag
  {
    hide Gcm.Ctr;
    assert |Gcm.Seal(cipher, nonce, [], text).ciphertext| == |text|;
  }

  /** The two small digits of a byte. */
  predicate IsPair(s: string, i: nat, w: uint8) {
    i + 2 <= |s| && s[i] == "0123456789abcdef"[w as nat / 16] && s[i + 1] == "0123456789abcdef"[w as nat % 16]
  }

  /** From offset `at` on stand the digits of these bytes. */
  ghost predicate DigitsStand(s: string, at: nat, data: seq<byte>) {
    forall i :: 0 <= i < |data| ==> IsPair(s, at + 2 * i, WordOf(data[i]))
  }

  lemma PairIs(s: string, at: nat, words: seq<uint8>, i: nat)
    requires i < |words| && at + 2 * |words| <= |s| && s[at..at + 2 * |words|] == Codec.Hex(words)
    ensures IsPair(s, at + 2 * i, words[i])
  {
    hide Codec.Hex;
    var h := Codec.Hex(words);
    CodecMeaning.HexAt(words, i);
    assert s[at + 2 * i] == h[2 * i] && s[at + 2 * i + 1] == h[2 * i + 1];
  }

  lemma DigitsAre(s: string, at: nat, data: seq<byte>)
    requires at + 2 * |data| <= |s| && s[at..at + 2 * |data|] == Codec.Hex(WordsOf(data))
    ensures DigitsStand(s, at, data)
  {
    hide Codec.Hex, WordOf, IsPair;
    forall i | 0 <= i < |data|
      ensures IsPair(s, at + 2 * i, WordOf(data[i]))
    {
      PairIs(s, at, WordsOf(data), i);
    }
  }

  /** The JSON form: three members in this order, each value in digits, and no white space. */
  lemma HexEnvelopeIs(box: Gcm.Sealed, nonce: seq<byte>)
    requires |nonce| == 16
    ensures var e, n := HexEnvelope(box, nonce), 2 * |box.ciphertext|;
            && |e| == n + 101 && e[..15] == "{\"ciphertext\":\"" && DigitsStand(e, 15, box.ciphertext)
            && e[n + 15..n + 24] == "\",\"tag\":\"" && DigitsStand(e, n + 24, box.tag)
            && e[n + 56..n + 67] == "\",\"nonce\":\"" && DigitsStand(e, n + 67, nonce) && e[n + 99..] == "\"}"
  {
    hide Codec.Hex, DigitsStand, WordsOf;
    var e, n := HexEnvelope(box, nonce), 2 * |box.ciphertext|;
    HexEnvelopeLength(box, nonce);
    Placed(Codec.Hex(WordsOf(box.ciphertext)), Codec.Hex(WordsOf(box.tag)), Codec.Hex(WordsOf(nonce)));
    DigitsAre(e, 15, box.ciphertext);
    DigitsAre(e, n + 24, box.tag);
    DigitsAre(e, n + 67, nonce);
  }

  lemma Placed(c: string, t: string, n: string)
    requires |t| == |n| == 32
    ensures var e, k := EnvelopeText(c, t, n), |c|;
            && |e| == k + 101 && e[..15] == "{\"ciphertext\":\"" && e[15..k + 15] == c && e[k + 15..k + 24] == "\",\"tag\":\""
            && e[k + 24..k + 56] == t && e[k + 56..k + 67] == "\",\"nonce\":\"" && e[k + 67..k + 99] == n && e[k + 99..] == "\"}"
  {
  }
}
