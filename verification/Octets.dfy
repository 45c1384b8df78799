/** Bytes in the order they are sent, and the digits they are written with. */
module Octets {
  import opened Arithmetic
  import opened Words

  function Zeros(n: nat): (s: seq<uint8>)
    ensures |s| == n && forall i :: 0 <= i < n ==> s[i] == 0
  {
    seq(n, _ => 0)
  }

  /** The low k bytes of a number, the highest first. */
  function BigEndian(n: nat, k: nat): (s: seq<uint8>)
    ensures |s| == k
  {
    if k == 0 then [] else BigEndian(n / 256, k - 1) + [(n % 256) as uint8]
  }

  /** The low k bytes of a number, the lowest first. */
  function LittleEndian(n: nat, k: nat): (s: seq<uint8>)
    ensures |s| == k
  {
    if k == 0 then [] else [(n % 256) as uint8] + LittleEndian(n / 256, k - 1)
  }

  function BytesValue(s: seq<uint8>): (v: int)
    ensures v >= 0
  {
    if s == [] then 0 else s[0] as int + 256 * BytesValue(s[1..])
  }

  lemma {:induction false} LittleEndianSpells(s: seq<uint8>)
    ensures LittleEndian(BytesValue(s), |s|) == s
  {
    if s != [] {
      LittleEndianSpells(s[1..]);
      var rest := BytesValue(s[1..]);
      assert (s[0] as int + 256 * rest) / 256 == rest && (s[0] as int + 256 * rest) % 256 == s[0] as int;
      assert s == [s[0]] + s[1..];
    }
  }

  lemma {:induction false} ValueFits(s: seq<uint8>)
    ensures BytesValue(s) < Pow256(|s|)
  {
    if s != [] {
      ValueFits(s[1..]);
    }
  }

  /** The number that bytes spell, the highest first: each is worth 256 to the power of the bytes behind it. */
  function BigValue(s: seq<uint8>): (v: nat) {
    if s == [] then 0 else s[0] as int * Pow256(|s| - 1) + BigValue(s[1..])
  }

  lemma {:induction false} BigValueGrows(s: seq<uint8>, b: uint8)
    ensures BigValue(s + [b]) == 256 * BigValue(s) + b as int
  {
    if s == [] {
      assert [] + [b] == [b];
    } else {
      BigValueGrows(s[1..], b);
      assert (s + [b])[1..] == s[1..] + [b];
      Weight(s[0] as int, Pow256(|s| - 1));
    }
  }

  lemma Weight(a: int, w: int)
    ensures a * (256 * w) == 256 * (a * w)
  {
  }

  /** The bytes spell the number they were made from, as far as they go. */
  lemma {:induction false} BigEndianSpells(n: nat, k: nat)
    ensures BigValue(BigEndian(n, k)) == n % Pow256(k)
  {
    if k > 0 {
      BigEndianSpells(n / 256, k - 1);
      BigValueGrows(BigEndian(n / 256, k - 1), (n % 256) as uint8);
      LastByte(n, Pow256(k - 1));
    }
  }

  lemma LastByte(n: nat, w: nat)
    requires w > 0
    ensures 256 * (n / 256 % w) + n % 256 == n % (256 * w)
  {
    var q, r := n / 256 / w, n / 256 % w;
    assert n / 256 == q * w + r;
    Weight(q, w);
    QuotientIs(n, 256 * w, q, 256 * r + n % 256);
  }

  /** So do bytes with the lowest first. */
  lemma {:induction false} LittleEndianIs(n: nat, k: nat)
    ensures BytesValue(LittleEndian(n, k)) == n % Pow256(k)
  {
    if k > 0 {
      LittleEndianIs(n / 256, k - 1);
      LastByte(n, Pow256(k - 1));
    }
  }

  lemma {:induction false} LittleEndianByte(n: nat, k: nat, i: nat)
    requires i < k
    ensures LittleEndian(n, k)[i] as nat == n / Pow256(i) % 256
  {
    if i > 0 {
      LittleEndianByte(n / 256, k - 1, i - 1);
      DivideTwice(n, 256, Pow256(i - 1));
    }
  }

  lemma {:induction false} BigEndianByte(n: nat, k: nat, i: nat)
    requires i < k
    ensures BigEndian(n, k)[i] as nat == n / Pow256(k - 1 - i) % 256
  {
    if i < k - 1 {
      BigEndianByte(n / 256, k - 1, i);
      DivideTwice(n, 256, Pow256(k - 2 - i));
    }
  }

  lemma {:induction false} BigEndianInjective(m: nat, n: nat, k: nat)
    requires m < Pow256(k) && n < Pow256(k) && BigEndian(m, k) == BigEndian(n, k)
    ensures m == n
  {
    if k > 0 {
      var s, t := BigEndian(m, k), BigEndian(n, k);
      assert s[..k - 1] == BigEndian(m / 256, k - 1) && t[..k - 1] == BigEndian(n / 256, k - 1);
      assert s[k - 1] == t[k - 1];
      BigEndianInjective(m / 256, n / 256, k - 1);
    }
  }

  lemma EightBytes()
    ensures Pow256(8) == WRAP
  {
    assert Pow256(4) == 0x1_0000_0000;
  }

  lemma FourBytes()
    ensures Pow256(4) == WORD
  {
  }

  function HexDigit(v: nat): char
    requires v < 16
  {
    "0123456789abcdef"[v]
  }
}
