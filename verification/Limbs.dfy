/** The number a little-endian sequence of radix-2^16 limbs stands for, carries not yet propagated. */
module Limbs {
  import opened Words

  ghost function Pow16(n: nat): (r: int)
    ensures r > 0
  {
    if n == 0 then 1 else 65536 * Pow16(n - 1)
  }

  ghost function Value(s: seq<uint64>): (v: int)
    ensures v >= 0
  {
    if s == [] then 0 else s[0] as int + 65536 * Value(s[1..])
  }

  ghost function Widen(s: seq<uint32>): (w: seq<uint64>)
    ensures |w| == |s| && forall i :: 0 <= i < |s| ==> w[i] as int == s[i] as int
  {
    seq(|s|, i requires 0 <= i < |s| => s[i] as uint64)
  }

  lemma {:induction false} PowAdds(i: nat, j: nat)
    ensures Pow16(i + j) == Pow16(i) * Pow16(j)
  {
    if i > 0 { PowAdds(i - 1, j); }
  }

  lemma {:induction false} ValueAppend(s: seq<uint64>, t: seq<uint64>)
    ensures Value(s + t) == Value(s) + Pow16(|s|) * Value(t)
  {
    if s == [] {
      assert s + t == t;
    } else {
      assert (s + t)[1..] == s[1..] + t;
      ValueAppend(s[1..], t);
    }
  }

  lemma ValueSnoc(s: seq<uint64>, n: nat)
    requires n < |s|
    ensures Value(s[..n + 1]) == Value(s[..n]) + Pow16(n) * s[n] as int
  {
    assert s[..n + 1] == s[..n] + [s[n]];
    ValueAppend(s[..n], [s[n]]);
    assert [s[n]][1..] == [];
  }

  /** Changing one limb changes the value by the difference times that limb's weight. */
  lemma Carried(d: int, w: int)
    ensures d * (65536 * w) == 65536 * (d * w)
  {
  }

  lemma {:induction false} ValueUpdate(s: seq<uint64>, i: nat, x: uint64)
    requires i < |s|
    ensures Value(s[i := x]) == Value(s) + (x as int - s[i] as int) * Pow16(i)
  {
    var s' := s[i := x];
    if i == 0 {
      assert s'[1..] == s[1..];
    } else {
      assert s'[1..] == s[1..][i - 1 := x];
      ValueUpdate(s[1..], i - 1, x);
      Carried(x as int - s[i] as int, Pow16(i - 1));
    }
  }

  lemma {:induction false} ValueBound(s: seq<uint64>)
    requires forall i :: 0 <= i < |s| ==> s[i] < 65536
    ensures Value(s) < Pow16(|s|)
  {
    if s != [] { ValueBound(s[1..]); }
  }

  lemma Weights()
    ensures Pow16(15) == 0x1_0000_0000_0000_0000_0000_0000_0000_0000_0000_0000_0000_0000_0000_0000_0000
    ensures Pow16(16) == 65536 * Pow16(15)
  {
    assert Pow16(4) == 0x1_0000_0000_0000_0000;
    PowAdds(4, 4);
    PowAdds(8, 4);
    assert Pow16(3) == 0x1_0000_0000_0000;
    PowAdds(12, 3);
  }
}
