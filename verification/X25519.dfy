/** The Montgomery ladder of RFC 7748, section 5, and the limb program that computes it. */
module X25519 {
  import opened Status
  import opened Words
  import opened Octets
  import opened Arithmetic
  import opened Modular
  import opened Limbs
  import opened Field
  import opened Encoding

  // ---------------------------------------------------------------- the curve, on integers modulo P

  /** A point in projective x-only coordinates: x / z. */
  datatype Point = Point(x: int, z: int)

  const A24: int := 121665

  ghost function Square(a: int): int { a * a }

  /** The double of a point. */
  ghost function Double(p: Point): Point {
    var aa, bb := Square(p.x + p.z), Square(p.x - p.z);
    var e := aa - bb;
    Point(aa * bb % P, e * (aa + A24 * e) % P)
  }

  /** The sum of two points whose difference has the affine coordinate x1. */
  ghost function Combine(x1: int, p: Point, q: Point): Point {
    var da, cb := (q.x - q.z) * (p.x + p.z), (q.x + q.z) * (p.x - p.z);
    Point(Square(da + cb) % P, x1 * Square(da - cb) % P)
  }

  lemma CombineCommutes(x1: int, p: Point, q: Point)
    ensures Combine(x1, p, q) == Combine(x1, q, p)
  {
    var da, cb := (q.x - q.z) * (p.x + p.z), (q.x + q.z) * (p.x - p.z);
    assert (p.x - p.z) * (q.x + q.z) == cb && (p.x + p.z) * (q.x - q.z) == da;
    assert Square(cb - da) == Square(da - cb);
  }

  /** Bit i of a number. */
  ghost function Bit(k: nat, i: nat): int {
    k / Pow2(i) % 2
  }

  /** The two running multiples of the ladder, u = 0 on the left of the pair; no exchanges anywhere. */
  datatype Pair = Pair(low: Point, high: Point)

  ghost function Exchange(s: Pair): Pair { Pair(s.high, s.low) }

  /** The pair (n Q, (n + 1) Q) becomes (2n Q, (2n + 1) Q) or ((2n + 1) Q, (2n + 2) Q). */
  ghost function Advance(x1: int, s: Pair, bit: int): Pair {
    if bit == 0 then Pair(Double(s.low), Combine(x1, s.low, s.high))
    else Pair(Combine(x1, s.low, s.high), Double(s.high))
  }

  /** The ladder over bits 254 down to i of the scalar k. */
  ghost function Climb(x1: int, k: nat, i: nat): Pair
    requires i <= 255
    decreases 255 - i
  {
    if i == 255 then Pair(Point(1, 0), Point(x1 % P, 1))
    else Advance(x1, Climb(x1, k, i + 1), Bit(k, i))
  }

  /** RFC 7748, section 5: clear the three low bits and the top bit, set the second highest bit. */
  function Clamp(key: seq<uint8>): (k: seq<uint8>)
    requires |key| == 32
    ensures |k| == 32
  {
    [key[0] / 8 * 8] + key[1..31] + [key[31] % 64 + 64]
  }

  function DropTopBit(u: seq<uint8>): (v: seq<uint8>)
    requires |u| == 32
    ensures |v| == 32
  {
    u[..31] + [u[31] % 128]
  }

  /** The function X25519 on numbers. */
  ghost function ScalarMultiply(k: nat, x1: int): int {
    var q := Climb(x1, k, 0).low;
    q.x * Power(q.z, P - 2) % P
  }

  // ------------------------------------------------------------------------------- the limb program

  ghost predicate SamePoint(p: Point, q: Point) {
    Cong(p.x, q.x) && Cong(p.z, q.z)
  }

  ghost function Fe(a: array<uint32>): int
    reads a
  {
    FeValue(a[..])
  }

  ghost function PointOf(x: array<uint32>, z: array<uint32>): Point
    reads x, z
  {
    Point(FeValue(x[..]), FeValue(z[..]))
  }

  lemma DoubleCong(p: Point, q: Point)
    requires SamePoint(p, q)
    ensures Double(p) == Double(q)
  {
    CongSum(p.x, q.x, p.z, q.z);
    CongProduct(p.x + p.z, q.x + q.z, p.x + p.z, q.x + q.z);
    CongProduct(p.x - p.z, q.x - q.z, p.x - p.z, q.x - q.z);
    var aa, bb := Square(p.x + p.z), Square(p.x - p.z);
    var aa', bb' := Square(q.x + q.z), Square(q.x - q.z);
    CongProduct(aa, aa', bb, bb');
    CongSum(aa, aa', bb, bb');
    var e, e' := aa - bb, aa' - bb';
    CongProduct(A24, A24, e, e');
    CongSum(aa, aa', A24 * e, A24 * e');
    CongProduct(e, e', aa + A24 * e, aa' + A24 * e');
  }

  lemma CombineCong(x1: int, x1': int, p: Point, p': Point, q: Point, q': Point)
    requires Cong(x1, x1') && SamePoint(p, p') && SamePoint(q, q')
    ensures Combine(x1, p, q) == Combine(x1', p', q')
  {
    CongSum(p.x, p'.x, p.z, p'.z);
    CongSum(q.x, q'.x, q.z, q'.z);
    CongProduct(q.x - q.z, q'.x - q'.z, p.x + p.z, p'.x + p'.z);
    CongProduct(q.x + q.z, q'.x + q'.z, p.x - p.z, p'.x - p'.z);
    var da, cb := (q.x - q.z) * (p.x + p.z), (q.x + q.z) * (p.x - p.z);
    var da', cb' := (q'.x - q'.z) * (p'.x + p'.z), (q'.x + q'.z) * (p'.x - p'.z);
    CongSum(da, da', cb, cb');
    CongProduct(da + cb, da' + cb', da + cb, da' + cb');
    CongProduct(da - cb, da' - cb', da - cb, da' - cb');
    CongProduct(x1, x1', Square(da - cb), Square(da' - cb'));
  }

  ghost predicate Limbed(a: array<uint32>)
    reads a
  {
    a.Length == 16 && Reduced(a[..])
  }

  ghost predicate SquaresOf(p: Point, aa: int, bb: int, e: int) {
    var A, B := Square(p.x + p.z), Square(p.x - p.z);
    Cong(aa, A) && Cong(bb, B) && Cong(e, A - B)
  }

  /** a = x + z and b = x - z, their squares aa and bb, and the difference e of the squares. */
  method SumsAndSquares(a: array<uint32>, aa: array<uint32>, b: array<uint32>, bb: array<uint32>, e: array<uint32>,
                        x: array<uint32>, z: array<uint32>)
    requires Limbed(x) && Limbed(z)
    requires a.Length == aa.Length == b.Length == bb.Length == e.Length == 16
    requires a !in {aa, b, bb, e} && aa !in {b, bb, e} && b !in {bb, e} && bb != e
    requires {x, z} !! {a, aa, b, bb, e}
    modifies a, aa, b, bb, e
    ensures Limbed(a) && Limbed(aa) && Limbed(b) && Limbed(bb) && Limbed(e)
    ensures var p := PointOf(x, z); Cong(Fe(a), p.x + p.z) && Cong(Fe(b), p.x - p.z)
    ensures SquaresOf(PointOf(x, z), Fe(aa), Fe(bb), Fe(e))
  {
    hide FeValue, Loose;
    ghost var p := PointOf(x, z);
    Add(a, x, z);
    Mul(aa, a, a);
    CongProduct(Fe(a), p.x + p.z, Fe(a), p.x + p.z);
    Sub(b, x, z);
    Mul(bb, b, b);
    CongProduct(Fe(b), p.x - p.z, Fe(b), p.x - p.z);
    Sub(e, aa, bb);
    CongSum(Fe(aa), Square(p.x + p.z), Fe(bb), Square(p.x - p.z));
  }

  /** da = (x - z) a and cb = (x + z) b. */
  method CrossProducts(da: array<uint32>, cb: array<uint32>,
                       x: array<uint32>, z: array<uint32>, a: array<uint32>, b: array<uint32>)
    requires Limbed(x) && Limbed(z) && Limbed(a) && Limbed(b)
    requires da.Length == cb.Length == 16 && da != cb && {x, z, a, b} !! {da, cb}
    modifies da, cb
    ensures Limbed(da) && Limbed(cb)
    ensures Cong(Fe(da), (Fe(x) - Fe(z)) * Fe(a)) && Cong(Fe(cb), (Fe(x) + Fe(z)) * Fe(b))
  {
    hide FeValue, Reduced, Loose;
    var c, d := new uint32[16](_ => 0), new uint32[16](_ => 0);
    Add(c, x, z);
    Sub(d, x, z);
    Mul(da, d, a);
    CongProduct(Fe(d), Fe(x) - Fe(z), Fe(a), Fe(a));
    Mul(cb, c, b);
    CongProduct(Fe(c), Fe(x) + Fe(z), Fe(b), Fe(b));
  }

  /** x = (da + cb)^2 and z = x1 (da - cb)^2. */
  method CombineInto(x: array<uint32>, z: array<uint32>, x1: array<uint32>, da: array<uint32>, cb: array<uint32>)
    requires Limbed(x1) && Limbed(da) && Limbed(cb)
    requires x.Length == z.Length == 16 && x != z && {x, z} !! {x1, da, cb}
    modifies x, z
    ensures Limbed(x) && Limbed(z)
    ensures Cong(Fe(x), Square(Fe(da) + Fe(cb))) && Cong(Fe(z), Fe(x1) * Square(Fe(da) - Fe(cb)))
  {
    hide FeValue;
    var t, u := new uint32[16](_ => 0), new uint32[16](_ => 0);
    ghost var sum, difference := Fe(da) + Fe(cb), Fe(da) - Fe(cb);
    Add(t, da, cb);
    Mul(x, t, t);
    CongProduct(Fe(t), sum, Fe(t), sum);
    Sub(t, da, cb);
    Mul(u, t, t);
    CongProduct(Fe(t), difference, Fe(t), difference);
    Mul(z, x1, u);
    CongProduct(Fe(x1), Fe(x1), Fe(u), Square(difference));
  }

  lemma ConstantValue(a: seq<uint32>)
    requires |a| == 16 && a[0] == 121665 && forall k :: 1 <= k < 16 ==> a[k] == 0
    ensures Loose(a) && FeValue(a) == A24
  {
    ZeroValue(Widen(a)[1..]);
  }

  /** x = aa bb and z = e (aa + 121665 e). */
  method DoubleInto(x: array<uint32>, z: array<uint32>, aa: array<uint32>, bb: array<uint32>, e: array<uint32>)
    requires Limbed(aa) && Limbed(bb) && Limbed(e)
    requires x.Length == z.Length == 16 && x != z && {x, z} !! {aa, bb, e}
    modifies x, z
    ensures Limbed(x) && Limbed(z)
    ensures Cong(Fe(x), Fe(aa) * Fe(bb)) && Cong(Fe(z), Fe(e) * (Fe(aa) + A24 * Fe(e)))
  {
    hide FeValue, Loose;
    var constant := new uint32[16](k => if k == 0 then 121665 else 0);
    var t, u := new uint32[16](_ => 0), new uint32[16](_ => 0);
    ConstantValue(constant[..]);
    Mul(x, aa, bb);
    Mul(t, constant, e);
    Add(u, aa, t);
    CongSum(Fe(aa), Fe(aa), Fe(t), A24 * Fe(e));
    Mul(z, e, u);
    CongProduct(Fe(e), Fe(e), Fe(u), Fe(aa) + A24 * Fe(e));
  }

  /** The second point of a step becomes the sum of both; a and b are the first point's sum and difference. */
  method CombineWith(x1: array<uint32>, x3: array<uint32>, z3: array<uint32>, a: array<uint32>, b: array<uint32>,
                     ghost p: Point)
    requires Limbed(x1) && Limbed(x3) && Limbed(z3) && Limbed(a) && Limbed(b)
    requires x3 != z3 && {x3, z3} !! {x1, a, b}
    requires Cong(Fe(a), p.x + p.z) && Cong(Fe(b), p.x - p.z)
    modifies x3, z3
    ensures Limbed(x3) && Limbed(z3)
    ensures SamePoint(PointOf(x3, z3), Combine(Fe(x1), p, old(PointOf(x3, z3))))
  {
    ghost var q := PointOf(x3, z3);
    var da, cb := new uint32[16](_ => 0), new uint32[16](_ => 0);
    CrossProducts(da, cb, x3, z3, a, b);
    CombineInto(x3, z3, x1, da, cb);
    CombineFrom(Fe(x1), p, q, Fe(a), Fe(b), Fe(da), Fe(cb), PointOf(x3, z3));
  }

  /** The part of a step that consumes the second point. */
  method CombineStep(x1: array<uint32>, x2: array<uint32>, z2: array<uint32>, x3: array<uint32>, z3: array<uint32>,
                     aa: array<uint32>, bb: array<uint32>, e: array<uint32>)
    requires Limbed(x1) && Limbed(x2) && Limbed(z2) && Limbed(x3) && Limbed(z3)
    requires aa.Length == bb.Length == e.Length == 16 && aa !in {bb, e} && bb != e
    requires x3 != z3 && {x3, z3} !! {x1, x2, z2} && {aa, bb, e} !! {x1, x2, z2, x3, z3}
    modifies x3, z3, aa, bb, e
    ensures Limbed(x3) && Limbed(z3) && Limbed(aa) && Limbed(bb) && Limbed(e)
    ensures SquaresOf(PointOf(x2, z2), Fe(aa), Fe(bb), Fe(e))
    ensures SamePoint(PointOf(x3, z3), Combine(Fe(x1), PointOf(x2, z2), old(PointOf(x3, z3))))
  {
    hide Cong, Combine, SamePoint, Fe, PointOf, Limbed, SquaresOf;
    var a, b := new uint32[16](_ => 0), new uint32[16](_ => 0);
    SumsAndSquares(a, aa, b, bb, e, x2, z2);
    CombineWith(x1, x3, z3, a, b, PointOf(x2, z2));
  }

  /** One ladder step: the first pair of arrays receives the doubled point, the second the combined one. */
  method LadderStep(x1: array<uint32>, x2: array<uint32>, z2: array<uint32>, x3: array<uint32>, z3: array<uint32>)
    requires Limbed(x1) && Limbed(x2) && Limbed(z2) && Limbed(x3) && Limbed(z3)
    requires x2 != z2 && x3 != z3 && {x2, z2} !! {x3, z3} && x1 !in {x2, z2, x3, z3}
    modifies x2, z2, x3, z3
    ensures Limbed(x2) && Limbed(z2) && Limbed(x3) && Limbed(z3)
    ensures SamePoint(PointOf(x2, z2), Double(old(PointOf(x2, z2))))
    ensures SamePoint(PointOf(x3, z3), Combine(Fe(x1), old(PointOf(x2, z2)), old(PointOf(x3, z3))))
  {
    hide Cong, Combine;
    ghost var p := PointOf(x2, z2);
    var aa, bb, e := new uint32[16](_ => 0), new uint32[16](_ => 0), new uint32[16](_ => 0);
    CombineStep(x1, x2, z2, x3, z3, aa, bb, e);
    DoubleInto(x2, z2, aa, bb, e);
    DoubleFrom(p, Fe(aa), Fe(bb), Fe(e), PointOf(x2, z2));
  }

  lemma DoubleFrom(p: Point, aa: int, bb: int, e: int, r: Point)
    requires SquaresOf(p, aa, bb, e)
    requires Cong(r.x, aa * bb) && Cong(r.z, e * (aa + A24 * e))
    ensures SamePoint(r, Double(p))
  {
    var A, B := Square(p.x + p.z), Square(p.x - p.z);
    var E := A - B;
    CongProduct(aa, A, bb, B);
    CongProduct(A24, A24, e, E);
    CongSum(aa, A, A24 * e, A24 * E);
    CongProduct(e, E, aa + A24 * e, A + A24 * E);
    CongResidue(A * B);
    CongResidue(E * (A + A24 * E));
  }

  lemma CombineFrom(x1: int, p: Point, q: Point, a: int, b: int, da: int, cb: int, r: Point)
    requires Cong(a, p.x + p.z) && Cong(b, p.x - p.z)
    requires Cong(da, (q.x - q.z) * a) && Cong(cb, (q.x + q.z) * b)
    requires Cong(r.x, Square(da + cb)) && Cong(r.z, x1 * Square(da - cb))
    ensures SamePoint(r, Combine(x1, p, q))
  {
    var DA, CB := (q.x - q.z) * (p.x + p.z), (q.x + q.z) * (p.x - p.z);
    CongProduct(q.x - q.z, q.x - q.z, a, p.x + p.z);
    CongProduct(q.x + q.z, q.x + q.z, b, p.x - p.z);
    CongSum(da, DA, cb, CB);
    CongProduct(da + cb, DA + CB, da + cb, DA + CB);
    CongProduct(da - cb, DA - CB, da - cb, DA - CB);
    CongProduct(x1, x1, Square(da - cb), Square(DA - CB));
    CongResidue(Square(DA + CB));
    CongResidue(x1 * Square(DA - CB));
  }

  /** The exchanges of the program, deferred to the next bit, against the ladder that makes none. */
  lemma StepMatches(x1: int, s: Pair, p: Point, q: Point, bit: int, p': Point, q': Point)
    requires bit == 0 || bit == 1
    requires var o := if bit == 1 then Exchange(s) else s; SamePoint(p, o.low) && SamePoint(q, o.high)
    requires SamePoint(p', Double(p)) && SamePoint(q', Combine(x1, p, q))
    ensures var o := Advance(x1, s, bit); var o' := if bit == 1 then Exchange(o) else o;
            SamePoint(p', o'.low) && SamePoint(q', o'.high)
  {
    var o := if bit == 1 then Exchange(s) else s;
    DoubleCong(p, o.low);
    CombineCong(x1, x1, p, o.low, q, o.high);
    CombineCommutes(x1, s.low, s.high);
  }

  lemma ShiftedQuotient(b: int, r: nat, q: nat)
    requires 0 <= b < 256 && q > 0
    ensures (b + 256 * r) / (256 * q) == r / q
  {
    var n := r / q;
    assert r == n * q + r % q;
    var rest := b + 256 * (r % q);
    assert b + 256 * r == n * (256 * q) + rest;
    assert 256 * (r % q) <= 256 * (q - 1);
    QuotientIs(b + 256 * r, 256 * q, n, rest);
  }

  /** Reading bit i of byte i / 8 reads bit i of the little-endian number. */
  lemma {:induction false} ByteBit(bytes: seq<uint8>, i: nat)
    requires i < 8 * |bytes|
    ensures Bit(BytesValue(bytes), i) == bytes[i / 8] as int / Pow2(i % 8) % 2
  {
    var b, r := bytes[0] as int, BytesValue(bytes[1..]);
    if i >= 8 {
      ByteBit(bytes[1..], i - 8);
      assert bytes[1..][(i - 8) / 8] == bytes[i / 8];
      Pow2Eight(i - 8);
      ShiftedQuotient(b, r, Pow2(i - 8));
    } else {
      LowBit(b, r, i);
    }
  }

  lemma Pow2Eight(n: nat)
    ensures Pow2(n + 8) == 256 * Pow2(n)
  {
    assert Pow2(8) == 256;
    Pow2Shift(n, 8, 256);
  }

  lemma LowBit(b: int, r: int, i: nat)
    requires 0 <= b < 256 && i < 8
    ensures (b + 256 * r) / Pow2(i) % 2 == b / Pow2(i) % 2
  {
    assert Pow2(i) * Pow2(7 - i) == 128 by {
      Pow2Adds(i, 7 - i);
      assert Pow2(7) == 128;
    }
    QuotientParity(b, r, Pow2(i), Pow2(7 - i));
  }

  lemma QuotientParity(b: int, r: int, d: int, m: int)
    requires d > 0 && d * m == 128
    ensures (b + 256 * r) / d % 2 == b / d % 2
  {
    var q := b / d + 2 * (m * r);
    calc {
      q * d;
      b / d * d + 2 * ((m * r) * d);
      { assert (m * r) * d == (d * m) * r; }
      b / d * d + 256 * r;
    }
    QuotientIs(b + 256 * r, d, q, b % d);
  }

  /** The two exchanges and the arithmetic of one scalar bit. */
  method LadderBit(x1: array<uint32>, x2: array<uint32>, z2: array<uint32>, x3: array<uint32>, z3: array<uint32>,
                   swap: uint32)
    requires Limbed(x1) && Limbed(x2) && Limbed(z2) && Limbed(x3) && Limbed(z3) && swap <= 1
    requires x2 != z2 && x3 != z3 && {x2, z2} !! {x3, z3} && x1 !in {x2, z2, x3, z3}
    modifies x2, z2, x3, z3
    ensures Limbed(x2) && Limbed(z2) && Limbed(x3) && Limbed(z3)
    ensures var p, q := old(PointOf(x2, z2)), old(PointOf(x3, z3));
            && SamePoint(PointOf(x2, z2), Double(if swap == 1 then q else p))
            && SamePoint(PointOf(x3, z3), if swap == 1 then Combine(Fe(x1), q, p) else Combine(Fe(x1), p, q))
  {
    Swap(x2, x3, swap);
    Swap(z2, z3, swap);
    LadderStep(x1, x2, z2, x3, z3);
  }

  /** The state of the program is the ladder's, exchanged when the last bit was set. */
  ghost predicate Follows(p: Point, q: Point, s: Pair, exchanged: int) {
    var o := if exchanged == 1 then Exchange(s) else s;
    SamePoint(p, o.low) && SamePoint(q, o.high)
  }

  lemma BitMatches(x1: int, s: Pair, p: Point, q: Point, exchanged: int, bit: int, p': Point, q': Point)
    requires 0 <= exchanged <= 1 && 0 <= bit <= 1 && Follows(p, q, s, exchanged)
    requires SamePoint(p', Double(if exchanged != bit then q else p))
    requires SamePoint(q', if exchanged != bit then Combine(x1, q, p) else Combine(x1, p, q))
    ensures Follows(p', q', Advance(x1, s, bit), bit)
  {
    if exchanged != bit {
      StepMatches(x1, s, q, p, bit, p', q');
    } else {
      StepMatches(x1, s, p, q, bit, p', q');
    }
  }

  /** The ladder over all scalar bits; the caller's low point is left in x2, z2. */
  method Ladder(x1: array<uint32>, x2: array<uint32>, z2: array<uint32>, x3: array<uint32>, z3: array<uint32>,
                k: seq<uint8>)
    requires Limbed(x1) && Limbed(x2) && Limbed(z2) && Limbed(x3) && Limbed(z3) && |k| == 32
    requires x2 != z2 && x3 != z3 && {x2, z2} !! {x3, z3} && x1 !in {x2, z2, x3, z3}
    requires Fe(x2) == 1 && Fe(z2) == 0 && Fe(x3) == Fe(x1) && Fe(z3) == 1
    modifies x2, z2, x3, z3
    ensures Limbed(x2) && Limbed(z2)
    ensures SamePoint(PointOf(x2, z2), Climb(Fe(x1), BytesValue(k), 0).low)
  {
    hide BytesValue, Pow2, Double, Bit, Advance;
    ghost var n, u := BytesValue(k), Fe(x1);
    var exchanged: uint32 := 0;
    var i := 255;
    CongResidue(u);
    while i > 0
      invariant 0 <= i <= 255 && exchanged <= 1
      invariant Limbed(x1) && Limbed(x2) && Limbed(z2) && Limbed(x3) && Limbed(z3) && Fe(x1) == u
      invariant Follows(PointOf(x2, z2), PointOf(x3, z3), Climb(u, n, i), exchanged as int)
    {
      i := i - 1;
      var selected := (k[i / 8] as int / Pow2(i % 8) % 2) as uint32;
      ByteBit(k, i);
      var swap := if exchanged == selected then 0 else 1;
      ghost var p, q := PointOf(x2, z2), PointOf(x3, z3);
      LadderBit(x1, x2, z2, x3, z3, swap);
      BitMatches(u, Climb(u, n, i + 1), p, q, exchanged as int, selected as int, PointOf(x2, z2), PointOf(x3, z3));
      exchanged := selected;
    }
    Swap(x2, x3, exchanged);
    Swap(z2, z3, exchanged);
  }

  /** The byte-level function: its result, and the return code that flags an all-zero result. */
  method Compute(privateKey: seq<uint8>, publicKey: seq<uint8>, out: array<uint8>) returns (rc: int)
    requires |privateKey| == |publicKey| == 32 && out.Length == 32
    modifies out
    ensures BytesValue(out[..]) == ScalarMultiply(BytesValue(Clamp(privateKey)), BytesValue(DropTopBit(publicKey)))
    ensures rc == if forall i :: 0 <= i < 32 ==> out[i] == 0 then ERR_AUTH else OK
  {
    hide Clamp, DropTopBit, BytesValue, ScalarMultiply, FeValue;
    var k := Clamp(privateKey);
    var x1 := new uint32[16](_ => 0);
    Decode(x1, publicKey);
    PublicIs(x1[..], publicKey);
    Multiply(x1, k, out);
    rc := FlagZero(out);
  }

  lemma PublicIs(x1: seq<uint32>, publicKey: seq<uint8>)
    requires |publicKey| == 32 && FeValue(x1) == BytesValue(publicKey[..31] + [publicKey[31] % 128])
    ensures FeValue(x1) == BytesValue(DropTopBit(publicKey))
  {
  }

  /** The ladder from the neutral point and the input, and its affine result. */
  method Multiply(x1: array<uint32>, k: seq<uint8>, out: array<uint8>)
    requires Limbed(x1) && |k| == 32 && out.Length == 32
    modifies out
    ensures BytesValue(out[..]) == ScalarMultiply(BytesValue(k), Fe(x1))
  {
    var x2, z2 := new uint32[16](i => if i == 0 then 1 else 0), new uint32[16](_ => 0);
    var x3, z3 := new uint32[16](_ => 0), new uint32[16](i => if i == 0 then 1 else 0);
    OneValue(x2[..]);
    ZeroValue(Widen(z2[..]));
    OneValue(z3[..]);
    Copy(x3, x1);
    Ladder(x1, x2, z2, x3, z3, k);
    ghost var p := PointOf(x2, z2);
    Finish(out, x2, z2);
    AffineCong(p, Climb(Fe(x1), BytesValue(k), 0).low);
  }

  method FlagZero(out: array<uint8>) returns (rc: int)
    requires out.Length == 32
    ensures rc == if forall i :: 0 <= i < 32 ==> out[i] == 0 then ERR_AUTH else OK
  {
    var nz := false;
    var i := 0;
    while i < 32
      invariant 0 <= i <= 32
      invariant nz <==> exists j :: 0 <= j < i && out[j] != 0
    {
      nz := nz || out[i] != 0;
      i := i + 1;
    }
    rc := if nz then OK else ERR_AUTH;
  }

  /** From projective to affine, canonically encoded. */
  method Finish(out: array<uint8>, x: array<uint32>, z: array<uint32>)
    requires out.Length == 32 && Limbed(x) && Limbed(z)
    modifies out
    ensures BytesValue(out[..]) == Fe(x) * Power(Fe(z), P - 2) % P
  {
    var t, u := new uint32[16](_ => 0), new uint32[16](_ => 0);
    Invert(t, z);
    Mul(u, x, t);
    CongProduct(Fe(x), Fe(x), Fe(t), Power(Fe(z), P - 2));
    Encode(out, u);
  }

  /** Congruent coordinates have the same affine value. */
  lemma AffineCong(p: Point, q: Point)
    requires SamePoint(p, q)
    ensures Cong(p.x * Power(p.z, P - 2), q.x * Power(q.z, P - 2))
  {
    CongPower(p.z, q.z, P - 2);
    CongProduct(p.x, q.x, Power(p.z, P - 2), Power(q.z, P - 2));
  }
}
