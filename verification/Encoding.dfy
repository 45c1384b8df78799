/** Little-endian bytes to limbs and back, and the canonical encoding of a field element. */
module Encoding {
  import opened Words
  import opened Octets
  import opened Modular
  import opened Limbs
  import opened Masks
  import opened Field

  /** A fixed number of bytes spells a number in one way only. */
  lemma {:induction false} BytesInjective(s: seq<uint8>, t: seq<uint8>)
    requires |s| == |t| && BytesValue(s) == BytesValue(t)
    ensures s == t
  {
    if s != [] {
      BytesInjective(s[1..], t[1..]);
      assert s == [s[0]] + s[1..] && t == [t[0]] + t[1..];
    }
  }

  ghost predicate Paired(bytes: seq<uint8>, limbs: seq<uint32>) {
    && |bytes| == 2 * |limbs|
    && forall i :: 0 <= i < |limbs| ==> limbs[i] as int == bytes[2 * i] as int + 256 * bytes[2 * i + 1] as int
  }

  /** Bytes that pair up into limbs spell the limbs' value. */
  lemma PairedBytes(bytes: seq<uint8>, limbs: seq<uint32>)
    requires Paired(bytes, limbs)
    ensures BytesValue(bytes) == FeValue(limbs)
  {
    PairedTail(bytes, limbs, 0);
    assert bytes[0..] == bytes && Widen(limbs)[0..] == Widen(limbs);
  }

  lemma {:induction false} PairedTail(bytes: seq<uint8>, limbs: seq<uint32>, n: nat)
    requires Paired(bytes, limbs) && n <= |limbs|
    ensures BytesValue(bytes[2 * n..]) == Value(Widen(limbs)[n..])
    decreases |limbs| - n
  {
    if n < |limbs| {
      PairedTail(bytes, limbs, n + 1);
      TwoBytes(bytes, 2 * n);
      assert Widen(limbs)[n..][1..] == Widen(limbs)[n + 1..];
      assert Widen(limbs)[n] as int == limbs[n] as int;
    }
  }

  lemma TwoBytes(bytes: seq<uint8>, k: nat)
    requires k + 2 <= |bytes|
    ensures BytesValue(bytes[k..]) == bytes[k] as int + 256 * bytes[k + 1] as int + 65536 * BytesValue(bytes[k + 2..])
  {
    assert bytes[k..][1..] == bytes[k + 1..] && bytes[k + 1..][1..] == bytes[k + 2..];
  }

  function PrimeLimb(i: nat): (d: uint32)
    requires i < 16
  {
    if i == 0 then 65517 else if i == 15 then 32767 else 65535
  }

  ghost function PrimeLimbs(): (s: seq<uint64>)
    ensures |s| == 16
  {
    seq(16, k requires 0 <= k < 16 => PrimeLimb(k) as uint64)
  }

  lemma PrimeLimbsValue()
    ensures Value(PrimeLimbs()) == P
  {
    PrimeTail(1);
    Weights();
  }

  lemma {:induction false} PrimeTail(n: nat)
    requires 1 <= n <= 15
    ensures Value(PrimeLimbs()[n..]) == 32768 * Pow16(15 - n) - 1
    decreases 15 - n
  {
    if n == 15 {
      assert PrimeLimbs()[15..] == [32767];
    } else {
      PrimeTail(n + 1);
      assert PrimeLimbs()[n..][1..] == PrimeLimbs()[n + 1..];
    }
  }

  /** Unsigned 32-bit subtraction wraps. */
  function WrapSub(x: uint32, y: uint32): (d: uint32)
    ensures d as int == x as int - y as int || d as int == x as int - y as int + 0x1_0000_0000
  {
    if x >= y then x - y else ((x as int - y as int) + 0x1_0000_0000) as uint32
  }

  /** One step of the trial subtraction of the prime: the limb difference and the borrow out of it. */
  lemma BorrowStep(x: uint32, p: uint32, borrow: uint32, d: uint32)
    requires x < 65536 && p < 65536 && borrow <= 1
    requires d == WrapSub(WrapSub(x, p), borrow)
    ensures d / 0x8000_0000 <= 1
    ensures (d % 65536) as int == x as int - p as int - borrow as int + 65536 * (d / 0x8000_0000) as int
  {
    var e := x as int - p as int - borrow as int;
    assert d as int == e || d as int == e + 0x1_0000_0000;
  }

  /** The trial subtraction leaves a - P and no borrow exactly when a is at least P. */
  lemma TrialDecides(a: seq<uint32>, c: seq<uint32>, borrow: uint32)
    requires Reduced(a) && |c| == 16 && (forall k :: 0 <= k < 16 ==> c[k] < 65536) && borrow <= 1
    requires FeValue(c) == FeValue(a) - P + borrow as int * Pow16(16)
    ensures FeValue(if borrow == 0 then c else a) == FeValue(a) % P
  {
    Weights();
    ValueBound(Widen(c));
    ReducedBound(a);
    if borrow == 0 {
      ResidueIs(FeValue(a), FeValue(c), 1);
    } else {
      ResidueIs(FeValue(a), FeValue(a), 0);
    }
  }

  lemma ResidueIs(x: int, r: int, q: int)
    requires x == r + q * P && 0 <= r < P
    ensures x % P == r
  {
    MultipleVanishes(r, q);
  }

  lemma ReducedBound(a: seq<uint32>)
    requires Reduced(a)
    ensures FeValue(a) < 32768 * Pow16(15)
  {
    hide Value, Pow16;
    var w := Widen(a);
    ValueSnoc(w, 15);
    ValueBound(w[..15]);
    assert w[..16] == w;
    TopLimb(Value(w[..15]), Pow16(15), a[15] as int);
  }

  lemma TopLimb(low: int, q: int, top: int)
    requires 0 <= low < q && 0 <= top <= 32767
    ensures low + q * top < 32768 * q
  {
    Distribute(q, top, 32767 - top);
  }

  /** Subtracts the prime limb by limb. */
  method TrialSubtract(c: array<uint32>, a: array<uint32>) returns (borrow: uint32)
    requires c.Length == 16 && c != a && Reduced(a[..])
    modifies c
    ensures borrow <= 1 && forall k :: 0 <= k < 16 ==> c[k] < 65536
    ensures FeValue(c[..]) == FeValue(a[..]) - P + borrow as int * Pow16(16)
  {
    hide Value, PrimeLimbs, Pow16, WrapSub;
    ghost var w, p := Widen(a[..]), PrimeLimbs();
    PrimeLimbsAre();
    NoLimbs(w, p, Widen(c[..]));
    borrow := 0;
    var i := 0;
    while i < 16
      invariant 0 <= i <= 16 && borrow <= 1
      invariant forall k :: 0 <= k < i ==> c[k] < 65536
      invariant Value(Widen(c[..])[..i]) == Value(w[..i]) - Value(p[..i]) + borrow as int * Pow16(i)
    {
      ghost var low := Widen(c[..])[..i];
      var d := WrapSub(WrapSub(a[i], PrimeLimb(i)), borrow);
      BorrowStep(a[i], PrimeLimb(i), borrow, d);
      ghost var out := d / 0x8000_0000;
      c[i] := d % 65536;
      TrialStep(low, w, p, Widen(c[..]), i, borrow as int, out as int);
      borrow := d / 0x8000_0000;
      i := i + 1;
    }
    PrimeLimbsValue();
    assert Widen(c[..])[..16] == Widen(c[..]) && w[..16] == w && p[..16] == p;
  }

  lemma PrimeLimbsAre()
    ensures forall k :: 0 <= k < 16 ==> PrimeLimbs()[k] == PrimeLimb(k) as uint64
  {
  }

  lemma NoLimbs(a: seq<uint64>, b: seq<uint64>, c: seq<uint64>)
    ensures Value(a[..0]) == Value(b[..0]) == Value(c[..0]) == 0
  {
  }

  lemma TrialStep(low: seq<uint64>, w: seq<uint64>, p: seq<uint64>, c: seq<uint64>, i: nat, borrow: int, out: int)
    requires |w| == |p| == |c| == 16 && i < 16 && low == c[..i]
    requires Value(low) == Value(w[..i]) - Value(p[..i]) + borrow * Pow16(i)
    requires c[i] as int == w[i] as int - p[i] as int - borrow + 65536 * out
    ensures Value(c[..i + 1]) == Value(w[..i + 1]) - Value(p[..i + 1]) + out * Pow16(i + 1)
  {
    hide Value, Pow16;
    ValueSnoc(w, i);
    ValueSnoc(p, i);
    ValueSnoc(c, i);
    NextWeight(i);
    LimbTimes(Pow16(i), w[i] as int, p[i] as int, borrow, out);
  }

  lemma NextWeight(i: nat)
    ensures Pow16(i + 1) == 65536 * Pow16(i)
  {
  }

  lemma LimbTimes(q: int, w: int, p: int, borrow: int, out: int)
    ensures q * (w - p - borrow + 65536 * out) == q * w - q * p - borrow * q + out * (65536 * q)
  {
  }

  /** Selects between two rows of limbs by a mask, and writes them least significant byte first. */
  method Emit(out: array<uint8>, limbs: array<uint32>, others: array<uint32>, bit: uint32)
    requires out.Length == 32 && limbs.Length == others.Length == 16 && bit <= 1
    requires forall k :: 0 <= k < 16 ==> limbs[k] < 65536 && others[k] < 65536
    modifies out
    ensures BytesValue(out[..]) == FeValue(if bit == 1 then others[..] else limbs[..])
  {
    hide Mask, And, Or, Not;
    var mask := Mask(bit);
    ghost var chosen := if bit == 1 then others[..] else limbs[..];
    var i := 0;
    while i < 16
      invariant 0 <= i <= 16
      invariant forall k :: 0 <= k < i ==> chosen[k] as int == out[2 * k] as int + 256 * out[2 * k + 1] as int
    {
      MaskedChoice(limbs[i], others[i], bit);
      var v := Or(And(limbs[i], Not(mask)), And(others[i], mask));
      out[2 * i] := (v % 256) as uint8;
      out[2 * i + 1] := (v / 256) as uint8;
      i := i + 1;
    }
    PairedBytes(out[..], chosen);
  }

  /** The canonical encoding: the one representative below P. */
  method Encode(out: array<uint8>, a: array<uint32>)
    requires out.Length == 32 && Reduced(a[..])
    modifies out
    ensures BytesValue(out[..]) == FeValue(a[..]) % P
  {
    hide BytesValue, Pow16, FeValue;
    var candidate := new uint32[16](_ => 0);
    var borrow := TrialSubtract(candidate, a);
    TrialDecides(a[..], candidate[..], borrow);
    Emit(out, a, candidate, 1 - borrow);
  }

  /** Two bytes a limb. */
  method PairUp(x: array<uint32>, bytes: seq<uint8>)
    requires x.Length == 16 && |bytes| == 32
    modifies x
    ensures Paired(bytes, x[..])
  {
    var i := 0;
    while i < 16
      invariant 0 <= i <= 16
      invariant forall k :: 0 <= k < i ==> x[k] as int == bytes[2 * k] as int + 256 * bytes[2 * k + 1] as int
    {
      x[i] := bytes[2 * i] as uint32 + 256 * bytes[2 * i + 1] as uint32;
      i := i + 1;
    }
  }

  lemma LastLimb(a: nat, b: nat)
    requires a < 256
    ensures (a + 256 * b) % 32768 == a + 256 * (b % 128)
  {
    assert a + 256 * b == 32768 * (b / 128) + (a + 256 * (b % 128));
  }

  /** Dropping the top bit of the last limb drops that of the last byte. */
  lemma TopDropped(bytes: seq<uint8>, limbs: seq<uint32>)
    requires |bytes| == 32 && |limbs| == 16 && Paired(bytes, limbs)
    ensures var less := limbs[15 := limbs[15] % 32768]; Paired(bytes[..31] + [bytes[31] % 128], less) && Reduced(less)
  {
    LastLimb(bytes[30] as nat, bytes[31] as nat);
  }

  /** Reads a u-coordinate: two bytes a limb, the top bit dropped. */
  method Decode(x: array<uint32>, bytes: seq<uint8>)
    requires x.Length == 16 && |bytes| == 32
    modifies x
    ensures Reduced(x[..])
    ensures FeValue(x[..]) == BytesValue(bytes[..31] + [bytes[31] % 128])
  {
    hide BytesValue, Paired, FeValue, Reduced;
    PairUp(x, bytes);
    ghost var limbs := x[..];
    TopDropped(bytes, limbs);
    x[15] := x[15] % 32768;
    assert x[..] == limbs[15 := limbs[15] % 32768];
    PairedBytes(bytes[..31] + [bytes[31] % 128], x[..]);
  }
}
