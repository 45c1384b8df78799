/**
 * Field elements as sixteen 16-bit limbs, and the limb loops that compute on them.
 * Arrays may alias wherever the callers let them: every operation reads its inputs before it writes `out`.
 */
module Field {
  import opened Words
  import opened Arithmetic
  import opened Modular
  import opened Limbs
  import opened Masks

  /** The number a field element stands for. */
  ghost function FeValue(a: seq<uint32>): int {
    Value(Widen(a))
  }

  /** Limbs below 2^16, the top one below 2^15: what every operation expects and leaves. */
  ghost predicate Reduced(a: seq<uint32>) {
    && |a| == 16
    && (forall i :: 0 <= i < 15 ==> a[i] < 65536)
    && a[15] < 32768
  }

  /** Limbs below 2^17: the multiplier's first operand may be this loose, as the ladder's constant is. */
  ghost predicate Loose(a: seq<uint32>) {
    |a| == 16 && forall i :: 0 <= i < 16 ==> a[i] < 131072
  }

  // The sum of sixteen limb products, the most any caller leaves in one column.
  const COLUMN: uint64 := 0x20_0000_0000

  // A column after the upper half has been folded onto it.
  const FOLDED: uint64 := 0x4E0_0000_0000

  lemma {:induction false} FoldedValue(lo: seq<uint64>, hi: seq<uint64>, sum: seq<uint64>)
    requires |lo| == |hi| == |sum|
    requires forall k :: 0 <= k < |lo| ==> sum[k] as int == lo[k] as int + 38 * hi[k] as int
    ensures Value(sum) == Value(lo) + 38 * Value(hi)
  {
    if lo != [] { FoldedValue(lo[1..], hi[1..], sum[1..]); }
  }

  /** 2^256 is 38 modulo P, so the folded lower half stands for the same element. */
  lemma FoldCong(t: seq<uint64>, sum: seq<uint64>)
    requires |t| == 32 && |sum| == 16
    requires forall k :: 0 <= k < 16 ==> sum[k] as int == t[k] as int + 38 * t[k + 16] as int
    ensures Cong(Value(sum), Value(t))
  {
    hide Value, Pow16;
    FoldedValue(t[..16], t[16..], sum);
    assert t == t[..16] + t[16..];
    ValueAppend(t[..16], t[16..]);
    Weights();
    FoldedOnce(Value(t[..16]), Value(t[16..]));
  }

  lemma FoldedOnce(low: int, high: int)
    ensures Cong(low + 38 * high, low + (2 * P + 38) * high)
  {
    CongByMultiple(low + 38 * high, low + (2 * P + 38) * high, -2 * high);
  }

  /** Moving a carry one limb up keeps the value. */
  lemma CarryValue(s: seq<uint64>, i: nat, low: uint64, high: uint64)
    requires i + 1 < |s|
    requires low as int + 65536 * high as int == s[i] as int + 65536 * s[i + 1] as int
    ensures Value(s[i := low][i + 1 := high]) == Value(s)
  {
    hide Value;
    ValueUpdate(s, i, low);
    ValueUpdate(s[i := low], i + 1, high);
    var w := Pow16(i);
    assert (low as int - s[i] as int) * w + (high as int - s[i + 1] as int) * (65536 * w)
        == (low as int + 65536 * high as int - s[i] as int - 65536 * s[i + 1] as int) * w;
  }

  /** Bits from 2^255 up return to the bottom limb nineteen-fold. */
  lemma WrapCong(s: seq<uint64>, bottom: uint64, top: uint64, q: uint64)
    requires |s| == 16
    requires bottom as int == s[0] as int + 19 * q as int
    requires s[15] as int == 32768 * q as int + top as int
    ensures Cong(Value(s[0 := bottom][15 := top]), Value(s))
  {
    ValueUpdate(s, 0, bottom);
    ValueUpdate(s[0 := bottom], 15, top);
    Weights();
    assert Value(s[0 := bottom][15 := top]) == Value(s) + 19 * q as int - 32768 * q as int * Pow16(15);
    CongByMultiple(Value(s[0 := bottom][15 := top]), Value(s), -(q as int));
  }

  /** Every limb but the bottom one already in range. */
  ghost predicate Settled(s: seq<uint64>) {
    |s| == 16 && s[0] < 0x1_0000_0000 && (forall k :: 1 <= k < 15 ==> s[k] < 65536) && s[15] < 32768
  }

  /** Carries from each limb of the lower half into the next. */
  method CarryUp(t: array<uint64>)
    requires t.Length == 32
    requires forall k :: 0 <= k < 16 ==> t[k] <= FOLDED
    modifies t
    ensures (forall k :: 0 <= k < 15 ==> t[k] < 65536) && t[15] <= old(t[15]) + 0x800_0000
    ensures old(Settled(t[..16])) ==> t[15] <= old(t[15]) + 1
    ensures old(Settled(t[..16]) && t[0] < 65555) && t[15] > old(t[15]) ==> t[0] <= 18
    ensures Value(t[..16]) == old(Value(t[..16]))
  {
    hide Value, Cong;
    ghost var s := t[..16];
    var i := 0;
    while i < 15
      invariant 0 <= i <= 15
      invariant forall k :: i < k < 16 ==> t[k] == s[k]
      invariant forall k :: 0 <= k < i ==> t[k] < 65536
      invariant t[i] <= s[i] + 0x800_0000
      invariant i == 0 ==> t[0] == s[0]
      invariant Settled(s) ==> t[i] <= s[i] + (if i == 0 then 0 else if i == 1 then 65535 else 1)
      invariant Settled(s) && s[0] < 65555 ==> t[i] <= s[i] + 1
      invariant Settled(s) && s[0] < 65555 && 1 <= i && t[i] > s[i] ==> t[0] <= 18
      invariant Value(t[..16]) == Value(s)
    {
      ghost var u := t[..16];
      t[i + 1] := t[i + 1] + t[i] / 65536;
      t[i] := t[i] % 65536;
      assert t[..16] == u[i := t[i]][i + 1 := t[i + 1]];
      CarryValue(u, i, t[i], t[i + 1]);
      i := i + 1;
    }
  }

  /** One round of carries over the lower half of the accumulator. */
  method CarryRound(t: array<uint64>)
    requires t.Length == 32
    requires forall k :: 0 <= k < 16 ==> t[k] <= FOLDED
    modifies t
    ensures Settled(t[..16])
    ensures Cong(Value(t[..16]), old(Value(t[..16])))
    ensures old(Settled(t[..16])) ==> t[0] < 65555
    ensures old(Settled(t[..16]) && t[0] < 65555) ==> t[0] < 65536
  {
    hide Value, Cong;
    CarryUp(t);
    ghost var u := t[..16];
    ghost var q := t[15] / 32768;
    t[0] := t[0] + 19 * (t[15] / 32768);
    t[15] := t[15] % 32768;
    assert t[..16] == u[0 := t[0]][15 := t[15]];
    WrapCong(u, t[0], t[15], q);
  }

  /** Folds the upper half of the accumulator onto the lower: 2^256 is 38 modulo P. */
  method Fold(t: array<uint64>)
    requires t.Length == 32
    requires forall k :: 0 <= k < 32 ==> t[k] <= COLUMN
    modifies t
    ensures forall k :: 0 <= k < 16 ==> t[k] <= FOLDED
    ensures Cong(Value(t[..16]), old(Value(t[..])))
  {
    ghost var wide := t[..];
    var i := 32;
    while i > 16
      invariant 16 <= i <= 32
      invariant forall k :: 0 <= k < 32 && !(i - 16 <= k < 16) ==> t[k] == wide[k]
      invariant forall k :: i - 16 <= k < 16 ==> t[k] == wide[k] + 38 * wide[k + 16]
    {
      i := i - 1;
      t[i - 16] := t[i - 16] + 38 * t[i];
    }
    FoldCong(wide, t[..16]);
    forall k | 0 <= k < 16 ensures t[k] <= FOLDED {
      assert wide[k] <= COLUMN && wide[k + 16] <= COLUMN;
    }
  }

  /** Three rounds always suffice, and no intermediate word exceeds 64 bits. */
  method Reduce(out: array<uint32>, t: array<uint64>)
    requires out.Length == 16 && t.Length == 32
    requires forall k :: 0 <= k < 32 ==> t[k] <= COLUMN
    modifies out, t
    ensures Reduced(out[..])
    ensures Cong(FeValue(out[..]), old(Value(t[..])))
  {
    Fold(t);
    var round := 0;
    while round < 3
      invariant 0 <= round <= 3
      invariant Cong(Value(t[..16]), old(Value(t[..])))
      invariant forall k :: 0 <= k < 16 ==> t[k] <= FOLDED
      invariant round >= 1 ==> Settled(t[..16])
      invariant round >= 2 ==> t[0] < 65555
      invariant round >= 3 ==> t[0] < 65536
    {
      CarryRound(t);
      round := round + 1;
    }
    Narrow(out, t);
  }

  method Narrow(out: array<uint32>, t: array<uint64>)
    requires out.Length == 16 && t.Length == 32
    requires Settled(t[..16]) && t[0] < 65536
    modifies out
    ensures Reduced(out[..]) && FeValue(out[..]) == Value(t[..16])
  {
    var i := 0;
    while i < 16
      invariant 0 <= i <= 16
      invariant forall k :: 0 <= k < i ==> out[k] as int == t[k] as int
    {
      out[i] := t[i] as uint32;
      i := i + 1;
    }
    assert Widen(out[..]) == t[..16];
  }

  lemma {:induction false} ZeroValue(s: seq<uint64>)
    requires forall k :: 0 <= k < |s| ==> s[k] == 0
    ensures Value(s) == 0
  {
    if s != [] { ZeroValue(s[1..]); }
  }

  lemma Regroup(x: int, y: int, v: int, w: int)
    ensures (x * y) * (v * w) == (x * v) * (y * w)
  {
    assert (x * y) * (v * w) == x * (y * (v * w)) == x * (v * (y * w));
  }

  lemma Distribute(x: int, y: int, z: int)
    ensures x * (y + z) == x * y + x * z && (y + z) * x == y * x + z * x
  {
  }

  /** One partial product lands in column i + j with the weight of both its factors. */
  lemma PartialProduct(t: seq<uint64>, i: nat, j: nat, x: int, y: int, sum: uint64)
    requires i + j < |t|
    requires sum as int == t[i + j] as int + x * y
    ensures Value(t[i + j := sum]) == Value(t) + (x * Pow16(i)) * (y * Pow16(j))
  {
    ValueUpdate(t, i + j, sum);
    PowAdds(i, j);
    Regroup(x, y, Pow16(i), Pow16(j));
  }

  lemma ProductBound(x: int, y: int)
    requires 0 <= x <= 131071 && 0 <= y <= 65535
    ensures 0 <= x * y <= 0x1_FFFD_0001
  {
    assert x * y <= 131071 * y by {
      Distribute(y, x, 131071 - x);
    }
  }

  /** The row's next product, added to column i + j. */
  lemma RowGrows(t: seq<uint64>, w: seq<uint64>, i: nat, j: nat, x: int, sum: uint64, before: int)
    requires i + j < |t| && j < |w|
    requires sum as int == t[i + j] as int + x * w[j] as int
    requires Value(t) == before + (x * Pow16(i)) * Value(w[..j])
    ensures Value(t[i + j := sum]) == before + (x * Pow16(i)) * Value(w[..j + 1])
  {
    PartialProduct(t, i, j, x, w[j] as int, sum);
    ValueSnoc(w, j);
    Distribute(x * Pow16(i), Value(w[..j]), w[j] as int * Pow16(j));
  }

  /** Adds row i of the schoolbook product: a's limb x times all of b. */
  method AddRow(t: array<uint64>, b: array<uint32>, i: nat, x: uint32)
    requires t.Length == 32 && Reduced(b[..]) && i < 16 && x < 131072
    requires forall k :: 0 <= k < 32 ==> t[k] as int <= i * 0x1_FFFD_0001
    modifies t
    ensures forall k :: 0 <= k < 32 ==> t[k] as int <= (i + 1) * 0x1_FFFD_0001
    ensures Value(t[..]) == old(Value(t[..])) + (x as int * Pow16(i)) * FeValue(b[..])
  {
    hide Value, Pow16;
    ghost var w, row, before := Widen(b[..]), x as int * Pow16(i), Value(t[..]);
    ZeroValue(w[..0]);
    var j := 0;
    while j < 16
      invariant 0 <= j <= 16
      invariant forall k :: 0 <= k < 32 && !(i <= k < i + j) ==> t[k] as int <= i * 0x1_FFFD_0001
      invariant forall k :: i <= k < i + j ==> t[k] as int <= (i + 1) * 0x1_FFFD_0001
      invariant Value(t[..]) == before + row * Value(w[..j])
    {
      ghost var u := t[..];
      ProductBound(x as int, b[j] as int);
      t[i + j] := t[i + j] + x as uint64 * b[j] as uint64;
      assert t[..] == u[i + j := t[i + j]];
      RowGrows(u, w, i, j, x as int, t[i + j], before);
      j := j + 1;
    }
    assert w[..16] == w;
  }

  lemma NothingValue(w: seq<uint64>)
    ensures Value(w[..0]) == 0
  {
  }

  /** The schoolbook product of a and b, carries not yet propagated. */
  method Columns(t: array<uint64>, a: array<uint32>, b: array<uint32>)
    requires t.Length == 32 && Loose(a[..]) && Reduced(b[..])
    requires forall k :: 0 <= k < 32 ==> t[k] == 0
    modifies t
    ensures forall k :: 0 <= k < 32 ==> t[k] <= COLUMN
    ensures Value(t[..]) == FeValue(a[..]) * FeValue(b[..])
  {
    hide Value, Pow16;
    ZeroValue(t[..]);
    ghost var w, v := Widen(a[..]), FeValue(b[..]);
    NothingValue(w);
    var i := 0;
    while i < 16
      invariant 0 <= i <= 16
      invariant forall k :: 0 <= k < 32 ==> t[k] as int <= i * 0x1_FFFD_0001
      invariant Value(t[..]) == Value(w[..i]) * v
    {
      AddRow(t, b, i, a[i]);
      ValueSnoc(w, i);
      Distribute(v, Value(w[..i]), a[i] as int * Pow16(i));
      i := i + 1;
    }
    assert w[..16] == w;
  }

  method Mul(out: array<uint32>, a: array<uint32>, b: array<uint32>)
    requires out.Length == 16 && Loose(a[..]) && Reduced(b[..])
    modifies out
    ensures Reduced(out[..])
    ensures Cong(FeValue(out[..]), old(FeValue(a[..])) * old(FeValue(b[..])))
  {
    var t := new uint64[32](_ => 0);
    Columns(t, a, b);
    Reduce(out, t);
  }

  lemma {:induction false} SumValue(a: seq<uint64>, b: seq<uint64>, t: seq<uint64>)
    requires |a| == |b| == |t|
    requires forall k :: 0 <= k < |a| ==> t[k] as int == a[k] as int + b[k] as int
    ensures Value(t) == Value(a) + Value(b)
  {
    if a != [] { SumValue(a[1..], b[1..], t[1..]); }
  }

  /** A 32-limb accumulator with an empty upper half has the value of its lower half. */
  lemma LowerHalf(t: seq<uint64>)
    requires |t| == 32 && forall k :: 16 <= k < 32 ==> t[k] == 0
    ensures Value(t) == Value(t[..16])
  {
    hide Pow16, Value;
    assert t == t[..16] + t[16..];
    ValueAppend(t[..16], t[16..]);
    ZeroValue(t[16..]);
  }

  method SumColumns(t: array<uint64>, a: array<uint32>, b: array<uint32>)
    requires t.Length == 32 && Reduced(a[..]) && Reduced(b[..])
    requires forall k :: 0 <= k < 32 ==> t[k] == 0
    modifies t
    ensures forall k :: 0 <= k < 32 ==> t[k] <= COLUMN
    ensures Value(t[..]) == FeValue(a[..]) + FeValue(b[..])
  {
    var i := 0;
    while i < 16
      invariant 0 <= i <= 16
      invariant forall k :: 0 <= k < i ==> t[k] as int == a[k] as int + b[k] as int <= 131070
      invariant forall k :: i <= k < 32 ==> t[k] == 0
    {
      t[i] := a[i] as uint64 + b[i] as uint64;
      i := i + 1;
    }
    LowerHalf(t[..]);
    SumValue(Widen(a[..]), Widen(b[..]), t[..][..16]);
  }

  method Add(out: array<uint32>, a: array<uint32>, b: array<uint32>)
    requires out.Length == 16 && Reduced(a[..]) && Reduced(b[..])
    modifies out
    ensures Reduced(out[..])
    ensures Cong(FeValue(out[..]), old(FeValue(a[..])) + old(FeValue(b[..])))
  {
    var t := new uint64[32](_ => 0);
    SumColumns(t, a, b);
    Reduce(out, t);
  }

  /** Limb i of twice the prime, in the unnormalised form that keeps every difference non-negative. */
  function Bias(i: nat): (d: uint64)
    requires i < 16
  {
    if i == 0 then 131034 else if i == 15 then 65534 else 131070
  }

  lemma BiasValue(p: seq<uint64>)
    requires |p| == 16 && forall k :: 0 <= k < 16 ==> p[k] == Bias(k)
    ensures Value(p) == 2 * P
  {
    BiasTail(p, 1);
    Weights();
  }

  lemma {:induction false} BiasTail(p: seq<uint64>, n: nat)
    requires 1 <= n <= 15
    requires |p| == 16 && forall k :: 0 <= k < 16 ==> p[k] == Bias(k)
    ensures Value(p[n..]) == 65536 * Pow16(15 - n) - 2
    decreases 15 - n
  {
    if n == 15 {
      assert p[15..] == [65534];
    } else {
      BiasTail(p, n + 1);
      assert p[n..][1..] == p[n + 1..];
    }
  }

  lemma {:induction false} BiasedDifference(a: seq<uint64>, b: seq<uint64>, p: seq<uint64>, t: seq<uint64>)
    requires |a| == |b| == |p| == |t|
    requires forall k :: 0 <= k < |a| ==> t[k] as int == a[k] as int + p[k] as int - b[k] as int
    ensures Value(t) == Value(a) + Value(p) - Value(b)
  {
    if a != [] { BiasedDifference(a[1..], b[1..], p[1..], t[1..]); }
  }

  /** Column differences biased by exactly 2P, so that no column goes below zero. */
  method DifferenceColumns(t: array<uint64>, a: array<uint32>, b: array<uint32>)
    requires t.Length == 32 && Reduced(a[..]) && Reduced(b[..])
    requires forall k :: 0 <= k < 32 ==> t[k] == 0
    modifies t
    ensures forall k :: 0 <= k < 32 ==> t[k] <= COLUMN
    ensures Value(t[..]) == FeValue(a[..]) - FeValue(b[..]) + 2 * P
  {
    var i := 0;
    while i < 16
      invariant 0 <= i <= 16
      invariant forall k :: 0 <= k < i ==> t[k] as int == a[k] as int + Bias(k) as int - b[k] as int <= 196605
      invariant forall k :: i <= k < 32 ==> t[k] == 0
    {
      t[i] := a[i] as uint64 + Bias(i) - b[i] as uint64;
      i := i + 1;
    }
    LowerHalf(t[..]);
    ghost var p := seq(16, k requires 0 <= k < 16 => Bias(k));
    BiasedDifference(Widen(a[..]), Widen(b[..]), p, t[..][..16]);
    BiasValue(p);
  }

  method Sub(out: array<uint32>, a: array<uint32>, b: array<uint32>)
    requires out.Length == 16 && Reduced(a[..]) && Reduced(b[..])
    modifies out
    ensures Reduced(out[..])
    ensures Cong(FeValue(out[..]), old(FeValue(a[..])) - old(FeValue(b[..])))
  {
    ghost var d := FeValue(a[..]) - FeValue(b[..]);
    var t := new uint64[32](_ => 0);
    DifferenceColumns(t, a, b);
    CongByMultiple(d + 2 * P, d, 2);
    Reduce(out, t);
  }

  method Swap(a: array<uint32>, b: array<uint32>, bit: uint32)
    requires a.Length == b.Length == 16 && a != b && bit <= 1
    modifies a, b
    ensures a[..] == if bit == 1 then old(b[..]) else old(a[..])
    ensures b[..] == if bit == 1 then old(a[..]) else old(b[..])
  {
    hide Mask, And, Xor;
    var mask := Mask(bit);
    var i := 0;
    while i < 16
      invariant 0 <= i <= 16
      invariant forall k :: 0 <= k < i ==> a[k] == (if bit == 1 then old(b[k]) else old(a[k]))
      invariant forall k :: 0 <= k < i ==> b[k] == (if bit == 1 then old(a[k]) else old(b[k]))
      invariant forall k :: i <= k < 16 ==> a[k] == old(a[k]) && b[k] == old(b[k])
    {
      MaskedExchange(a[i], b[i], bit);
      var t := And(mask, Xor(a[i], b[i]));
      a[i] := Xor(a[i], t);
      b[i] := Xor(b[i], t);
      i := i + 1;
    }
  }

  ghost function Power(a: int, e: nat): int {
    if e == 0 then 1 else a * Power(a, e - 1)
  }

  lemma {:induction false} PowerAdds(a: int, d: nat, e: nat)
    ensures Power(a, d + e) == Power(a, d) * Power(a, e)
  {
    if d > 0 { PowerAdds(a, d - 1, e); }
  }

  lemma {:induction false} CongPower(a: int, b: int, e: nat)
    requires Cong(a, b)
    ensures Cong(Power(a, e), Power(b, e))
  {
    if e > 0 {
      CongPower(a, b, e - 1);
      CongProduct(a, b, Power(a, e - 1), Power(b, e - 1));
    }
  }

  /** Bit i of the fixed exponent: all ones from bit 5 up, binary 01011 below. */
  predicate ExponentBit(i: nat) {
    i >= 5 || 11 / Pow2(i) % 2 == 1
  }

  /** The exponent read from bit 254 down to bit i. */
  ghost function ExponentFrom(i: nat): nat
    requires i <= 255
    decreases 255 - i
  {
    if i == 255 then 0 else 2 * ExponentFrom(i + 1) + if ExponentBit(i) then 1 else 0
  }

  lemma {:induction false} ExponentHigh(i: nat)
    requires 5 <= i <= 255
    ensures ExponentFrom(i) == Pow2(255 - i) - 1
    decreases 255 - i
  {
    if i < 255 { ExponentHigh(i + 1); }
  }

  /** The bits the inversion walks spell P - 2. */
  lemma ExponentIsInverse()
    ensures ExponentFrom(0) == P - 2
  {
    hide Pow16;
    hide ExponentFrom, Pow2;
    ExponentHigh(5);
    ExponentLow();
    Pow2Of250();
    Weights();
  }

  /** The five lowest bits are 01011. */
  lemma ExponentLow()
    ensures ExponentFrom(0) == 32 * ExponentFrom(5) + 11
  {
    hide ExponentFrom, ExponentBit;
    LowBits();
    ExponentStep(4);
    ExponentStep(3);
    ExponentStep(2);
    ExponentStep(1);
    ExponentStep(0);
  }

  lemma ExponentStep(i: nat)
    requires i < 255
    ensures ExponentFrom(i) == 2 * ExponentFrom(i + 1) + if ExponentBit(i) then 1 else 0
  {
    hide ExponentBit;
  }

  lemma LowBits()
    ensures ExponentBit(0) && ExponentBit(1) && !ExponentBit(2) && ExponentBit(3) && !ExponentBit(4)
  {
    assert Pow2(1) == 2 && Pow2(2) == 4 && Pow2(3) == 8 && Pow2(4) == 16;
  }

  lemma {:induction false} Pow2OfLimbs(n: nat, k: nat)
    requires k == 16 * n
    ensures Pow2(k) == Pow16(n)
  {
    if n > 0 {
      Pow2OfLimbs(n - 1, k - 16);
      SmallPowers();
      Pow2Shift(k - 16, 16, 65536);
    }
  }

  lemma Pow2Shift(n: nat, m: nat, v: nat)
    requires m <= 16 && Pow2(m) == v
    ensures Pow2(n + m) == v * Pow2(n)
  {
    Pow2Adds(n, m);
  }

  lemma SmallPowers()
    ensures Pow2(10) == 0x400 && Pow2(16) == 65536
  {
    assert Pow2(5) == 32 && Pow2(6) == 64;
    Pow2Shift(5, 5, 32);
    Pow2Shift(10, 6, 64);
  }

  lemma Pow2Of250()
    ensures Pow2(250) == 0x400 * Pow16(15)
  {
    hide Pow2, Pow16;
    Pow2OfLimbs(15, 240);
    SmallPowers();
    Pow2Shift(240, 10, 0x400);
  }

  lemma SquareStep(a: int, r: int, e: nat, r': int)
    requires Cong(r, Power(a, e)) && Cong(r', r * r)
    ensures Cong(r', Power(a, 2 * e))
  {
    CongProduct(r, Power(a, e), r, Power(a, e));
    PowerAdds(a, e, e);
  }

  lemma MultiplyStep(a: int, r: int, e: nat, r': int)
    requires Cong(r, Power(a, e)) && Cong(r', r * a)
    ensures Cong(r', Power(a, e + 1))
  {
    CongProduct(r, Power(a, e), a, a);
  }

  /** One exponent bit of square-and-multiply. */
  method PowerStep(r: array<uint32>, a: array<uint32>, bit: bool, ghost e: nat)
    requires r.Length == 16 && r != a && Reduced(r[..]) && Reduced(a[..])
    requires Cong(FeValue(r[..]), Power(FeValue(a[..]), e))
    modifies r
    ensures Reduced(r[..])
    ensures Cong(FeValue(r[..]), Power(FeValue(a[..]), 2 * e + if bit then 1 else 0))
  {
    ghost var base, r0 := FeValue(a[..]), FeValue(r[..]);
    Mul(r, r, r);
    SquareStep(base, r0, e, FeValue(r[..]));
    if bit {
      ghost var r1 := FeValue(r[..]);
      Mul(r, r, a);
      MultiplyStep(base, r1, 2 * e, FeValue(r[..]));
    }
  }

  /** Fermat inversion: the power P - 2 of the argument. */
  method Invert(out: array<uint32>, a: array<uint32>)
    requires out.Length == 16 && Reduced(a[..])
    modifies out
    ensures Reduced(out[..])
    ensures Cong(FeValue(out[..]), Power(old(FeValue(a[..])), P - 2))
  {
    ghost var base := FeValue(a[..]);
    var r := new uint32[16](k => if k == 0 then 1 else 0);
    OneValue(r[..]);
    var i := 255;
    while i > 0
      modifies r
      invariant 0 <= i <= 255
      invariant Reduced(r[..]) && FeValue(a[..]) == base
      invariant Cong(FeValue(r[..]), Power(base, ExponentFrom(i)))
    {
      i := i - 1;
      PowerStep(r, a, ExponentBit(i), ExponentFrom(i + 1));
    }
    ExponentIsInverse();
    Copy(out, r);
  }

  method Copy(out: array<uint32>, a: array<uint32>)
    requires out.Length == a.Length
    modifies out
    ensures out[..] == old(a[..])
  {
    var i := 0;
    while i < out.Length
      invariant 0 <= i <= out.Length
      invariant out[..i] == old(a[..i]) && (forall k :: i <= k < out.Length ==> a[k] == old(a[k]))
    {
      out[i] := a[i];
      i := i + 1;
    }
  }

  lemma OneValue(r: seq<uint32>)
    requires |r| == 16 && r[0] == 1 && forall k :: 1 <= k < 16 ==> r[k] == 0
    ensures FeValue(r) == 1
  {
    ZeroValue(Widen(r)[1..]);
  }
}
