/** What the ladder and the byte-level function mean: scalar multiplication, and which inputs they tell apart. */
module LadderTheory {
  import opened Words
  import opened Octets
  import opened Arithmetic
  import opened Modular
  import opened Field
  import opened Encoding
  import opened X25519

  // ---------------------------------------------------------------- the ladder multiplies

  /** The prime is 2^255 - 19. */
  lemma PrimeIs()
    ensures P == Pow2(255) - 19
  {
    hide Pow2;
    SmallPowers();
    Pow2Adds(8, 8);
    Pow2Adds(16, 16);
    Pow2Adds(32, 32);
    Pow2Adds(64, 64);
    Pow2Adds(128, 64);
    Pow2Adds(192, 32);
    Pow2Adds(224, 16);
    Pow2Adds(240, 8);
    Pow2Adds(248, 7);
  }

  lemma SmallPowers()
    ensures Pow2(7) == 128 && Pow2(8) == 256
  {
  }

  /** q is twice p on y^2 = x^3 + 486662 x^2 + x, in projective x coordinates (Montgomery's doubling). */
  ghost predicate IsDouble(p: Point, q: Point) {
    && Cong(q.x, (p.x * p.x - p.z * p.z) * (p.x * p.x - p.z * p.z))
    && Cong(q.z, 4 * (p.x * p.z) * (p.x * p.x + 486662 * (p.x * p.z) + p.z * p.z))
  }

  /** r is p + q, when q - p has the affine x coordinate u (differential addition). */
  ghost predicate IsSum(u: int, p: Point, q: Point, r: Point) {
    var a, b := p.x * q.x - p.z * q.z, p.x * q.z - p.z * q.x;
    Cong(r.x, 4 * (a * a)) && Cong(r.z, u * (4 * (b * b)))
  }

  /**
   * `times(n, p)` says that p is a projective x coordinate of n times the point with affine coordinate u. The laws are the
   * doubling and differential-addition formulas of the curve, and the two points the ladder starts from.
   */
  ghost predicate Multiples(u: int, times: (nat, Point) -> bool) {
    && times(0, Point(1, 0)) && times(1, Point(u % P, 1))
    && (forall n: nat, p, q {:trigger times(n, p), IsDouble(p, q)} :: times(n, p) && IsDouble(p, q) ==> times(2 * n, q))
    && (forall n: nat, p, q, r {:trigger times(n, p), IsSum(u, p, q, r)} ::
          times(n, p) && times(n + 1, q) && IsSum(u, p, q, r) ==> times(2 * n + 1, r))
  }

  lemma Squares(x: int, z: int)
    ensures Square(x + z) == x * x + 2 * (x * z) + z * z && Square(x - z) == x * x - 2 * (x * z) + z * z
  {
  }

  lemma SquareProduct(m: int, b: int)
    ensures (m + 2 * b) * (m - 2 * b) == m * m - 4 * (b * b)
    ensures (m - 2 * b) * (m + 2 * b) == m * m - 4 * (b * b)
  {
  }

  lemma DifferenceSquared(a: int, c: int)
    ensures (a - c) * (a - c) == (a + c) * (a + c) - 4 * (a * c)
  {
  }

  lemma Regrouped(x: int, z: int)
    ensures (x * x) * (z * z) == (x * z) * (x * z)
  {
    assert (x * x) * (z * z) == x * (x * (z * z)) && (x * z) * (x * z) == x * (z * (x * z));
    assert x * (z * z) == z * (x * z);
  }

  /** The steps of a doubling compute the curve's doubling. */
  lemma DoubleIs(p: Point)
    ensures IsDouble(p, Double(p))
  {
    hide Square;
    var a, b, c := p.x * p.x, p.x * p.z, p.z * p.z;
    var aa, bb := Square(p.x + p.z), Square(p.x - p.z);
    var e := aa - bb;
    Squares(p.x, p.z);
    assert aa == (a + c) + 2 * b && bb == (a + c) - 2 * b && e == 4 * b;
    SquareProduct(a + c, b);
    DifferenceSquared(a, c);
    Regrouped(p.x, p.z);
    assert aa * bb == (a - c) * (a - c);
    assert aa + A24 * e == a + 486662 * b + c;
    CongResidue(aa * bb);
    CongResidue(e * (aa + A24 * e));
  }

  lemma CrossProducts(px: int, pz: int, qx: int, qz: int)
    ensures (qx - qz) * (px + pz) + (qx + qz) * (px - pz) == 2 * (px * qx - pz * qz)
    ensures (qx - qz) * (px + pz) - (qx + qz) * (px - pz) == -(2 * (px * qz - pz * qx))
  {
  }

  lemma SquareTwice(a: int)
    ensures Square(2 * a) == 4 * (a * a) && Square(-(2 * a)) == 4 * (a * a)
  {
  }

  /** Those of a combination compute the curve's differential addition. */
  lemma CombineIs(u: int, p: Point, q: Point)
    ensures IsSum(u, p, q, Combine(u, p, q))
  {
    hide Square;
    var a, b := p.x * q.x - p.z * q.z, p.x * q.z - p.z * q.x;
    CrossProducts(p.x, p.z, q.x, q.z);
    SquareTwice(a);
    SquareTwice(b);
    CongResidue(4 * (a * a));
    CongResidue(u * (4 * (b * b)));
  }

  lemma QuotientBit(k: nat, i: nat)
    ensures k / Pow2(i) == 2 * (k / Pow2(i + 1)) + Bit(k, i)
    ensures Bit(k, i) == 0 || Bit(k, i) == 1
  {
    var w := Pow2(i);
    var q, r := k / w, k % w;
    var h, b := q / 2, q % 2;
    assert k == q * w + r == h * (2 * w) + (b * w + r) by {
      HalfTurns(h, b, w);
    }
    QuotientIs(k, 2 * w, h, b * w + r);
  }

  lemma HalfTurns(h: int, b: int, w: int)
    ensures (2 * h + b) * w == h * (2 * w) + b * w
  {
  }

  /** The scalars the ladder has bits for. */
  ghost predicate InRange(k: nat) {
    k < Pow2(255)
  }

  /** Halfway down, the pair holds the multiples of the scalar's upper bits and of the next number. */
  lemma {:induction false} ClimbMultiplies(u: int, k: nat, i: nat, times: (nat, Point) -> bool)
    requires Multiples(u, times) && i <= 255 && InRange(k)
    ensures var s, n := Climb(u, k, i), k / Pow2(i); times(n, s.low) && times(n + 1, s.high)
    decreases 255 - i
  {
    hide Double, Combine, Pow2, Multiples, Bit;
    if i == 255 {
      QuotientIs(k, Pow2(255), 0, k);
      Starts(u, times);
    } else {
      ClimbMultiplies(u, k, i + 1, times);
      QuotientBit(k, i);
      var s, n := Climb(u, k, i + 1), k / Pow2(i + 1);
      Adds(u, n, s.low, s.high, times);
      Doubles(u, n, s.low, times);
      Doubles(u, n + 1, s.high, times);
    }
  }

  lemma Starts(u: int, times: (nat, Point) -> bool)
    requires Multiples(u, times)
    ensures times(0, Point(1, 0)) && times(1, Point(u % P, 1))
  {
  }

  lemma Doubles(u: int, n: nat, p: Point, times: (nat, Point) -> bool)
    requires Multiples(u, times) && times(n, p)
    ensures times(2 * n, Double(p))
  {
    hide IsDouble, Double;
    DoubleIs(p);
  }

  lemma Adds(u: int, n: nat, p: Point, q: Point, times: (nat, Point) -> bool)
    requires Multiples(u, times) && times(n, p) && times(n + 1, q)
    ensures times(2 * n + 1, Combine(u, p, q))
  {
    hide IsSum, Combine;
    CombineIs(u, p, q);
  }

  /** RFC 7748, section 5: the ladder's low point is k times the input point. */
  lemma LadderMultiplies(u: int, k: nat, times: (nat, Point) -> bool)
    requires Multiples(u, times) && InRange(k)
    ensures times(k, Climb(u, k, 0).low)
  {
    hide Multiples, Climb;
    ClimbMultiplies(u, k, 0, times);
    assert Pow2(0) == 1;
  }

  // ---------------------------------------------------------------- what the result depends on

  lemma {:induction false} ClimbCong(u: int, v: int, k: nat, i: nat)
    requires Cong(u, v) && i <= 255
    ensures Climb(u, k, i) == Climb(v, k, i)
    decreases 255 - i
  {
    if i < 255 {
      ClimbCong(u, v, k, i + 1);
      var s := Climb(u, k, i + 1);
      CombineCong(u, v, s.low, s.low, s.high, s.high);
    }
  }

  lemma {:induction false} BytesBound(s: seq<uint8>)
    ensures BytesValue(s) < Pow2(8 * |s|)
  {
    if s != [] {
      BytesBound(s[1..]);
      Pow2Eight(8 * |s| - 8);
    }
  }

  lemma {:induction false} BytesSnoc(s: seq<uint8>, b: uint8)
    ensures BytesValue(s + [b]) == BytesValue(s) + Pow2(8 * |s|) * b as int
  {
    if s == [] {
      assert s + [b] == [b] && [b][1..] == [];
    } else {
      BytesSnoc(s[1..], b);
      assert (s + [b])[1..] == s[1..] + [b];
      Pow2Eight(8 * |s| - 8);
      Thrice(Pow2(8 * |s| - 8), b as int);
    }
  }

  lemma Thrice(w: int, b: int)
    ensures 256 * (w * b) == (256 * w) * b
  {
  }

  /** Dropping the top bit of the public key takes its number modulo 2^255. */
  lemma DropTopBitValue(u: seq<uint8>)
    requires |u| == 32
    ensures BytesValue(DropTopBit(u)) == BytesValue(u) % Pow2(255)
  {
    hide BytesValue, Pow2;
    var low, top := u[..31], u[31];
    BytesSnoc(low, top);
    BytesSnoc(low, top % 128);
    BytesBound(low);
    assert u == low + [top];
    HighPowers();
    TopBits(BytesValue(low), top as int, Pow2(248), 128);
  }

  lemma TopBits(low: nat, top: nat, w: nat, m: nat)
    requires low < w && m > 0
    ensures (low + w * top) % (w * m) == low + w * (top % m)
  {
    var q, r := top / m, top % m;
    assert w * top == q * (w * m) + w * r by {
      assert top == m * q + r;
      Spread(w, m, q, r);
    }
    Bounded(low, w, r, m);
    QuotientIs(low + w * top, w * m, q, low + w * r);
  }

  lemma Spread(w: int, m: int, q: int, r: int)
    ensures w * (m * q + r) == q * (w * m) + w * r
  {
  }

  lemma Bounded(low: nat, w: nat, r: nat, m: nat)
    requires low < w && r < m
    ensures 0 <= low + w * r < w * m
  {
    assert w * m == w * (m - 1) + w;
    assert w * r <= w * (m - 1);
  }

  /** Public keys that agree modulo P, after bit 255 is dropped, give every private key the same result. */
  lemma PublicResidue(k: nat, u: seq<uint8>, v: seq<uint8>)
    requires |u| == |v| == 32 && Cong(BytesValue(u) % Pow2(255), BytesValue(v) % Pow2(255))
    ensures ScalarMultiply(k, BytesValue(DropTopBit(u))) == ScalarMultiply(k, BytesValue(DropTopBit(v)))
  {
    DropTopBitValue(u);
    DropTopBitValue(v);
    ClimbCong(BytesValue(DropTopBit(u)), BytesValue(DropTopBit(v)), k, 0);
  }

  // ---------------------------------------------------------------- the clamped scalar

  /** The scalar has bit 254 set, is a multiple of the cofactor 8, and keeps the other bits of the key. */
  lemma ClampedScalar(key: seq<uint8>)
    requires |key| == 32
    ensures var k := BytesValue(Clamp(key)); k % 8 == 0 && Pow2(254) <= k && InRange(k)
    ensures BytesValue(Clamp(key)) == BytesValue(key) % Pow2(254) / 8 * 8 + Pow2(254)
  {
    hide Pow2, BytesValue, Clamp;
    KeyParts(key);
    HighPowers();
    ClampedParts(key[0] as int, BytesValue(key[1..31]), key[31] as int, Pow2(248), Pow2(245));
  }

  lemma ClampedParts(b: nat, rest: nat, top: nat, w: nat, v: nat)
    requires b < 256 && top < 256 && b + 256 * rest < w && b / 8 * 8 + 256 * rest < w && w == 8 * v
    ensures var k := b / 8 * 8 + 256 * rest + w * (top % 64 + 64);
            && k % 8 == 0 && w * 64 <= k < w * 128
            && k == (b + 256 * rest + w * top) % (w * 64) / 8 * 8 + w * 64
  {
    ClampedNumbers(b, rest, top, w);
    Eights(b, rest, top % 64, w, v);
  }

  lemma KeyParts(key: seq<uint8>)
    requires |key| == 32
    ensures var b, rest, w := key[0] as int, BytesValue(key[1..31]), Pow2(248);
            && b + 256 * rest < w && b / 8 * 8 + 256 * rest < w
            && BytesValue(key) == b + 256 * rest + w * key[31] as int
            && BytesValue(Clamp(key)) == b / 8 * 8 + 256 * rest + w * (key[31] as int % 64 + 64)
  {
    hide Pow2, BytesValue;
    BodyParts(key[0], key[1..31], key[31]);
    BodyParts(key[0] / 8 * 8, key[1..31], key[31] % 64 + 64);
    assert key == [key[0]] + key[1..31] + [key[31]];
  }

  lemma BodyParts(b: uint8, rest: seq<uint8>, top: uint8)
    requires |rest| == 30
    ensures b as int + 256 * BytesValue(rest) < Pow2(248)
    ensures BytesValue([b] + rest + [top]) == b as int + 256 * BytesValue(rest) + Pow2(248) * top as int
  {
    hide Pow2;
    var low := [b] + rest;
    BytesSnoc(low, top);
    BytesBound(low);
    assert low[1..] == rest;
  }

  /** The clamped number, from its lowest byte, the bytes between and its highest byte. */
  lemma ClampedNumbers(b: nat, rest: nat, top: nat, w: nat)
    requires b < 256 && top < 256 && b + 256 * rest < w && b / 8 * 8 + 256 * rest < w
    ensures (b + 256 * rest + w * top) % (w * 64) == b + 256 * rest + w * (top % 64)
    ensures b / 8 * 8 + 256 * rest + w * (top % 64 + 64) == b / 8 * 8 + 256 * rest + w * (top % 64) + w * 64
    ensures w * 64 <= b / 8 * 8 + 256 * rest + w * (top % 64 + 64) < w * 128
  {
    var t := top % 64;
    TopBits(b + 256 * rest, top, w, 64);
    Bounded(b / 8 * 8 + 256 * rest, w, t + 64, 128);
    SplitTop(w, t);
  }

  lemma SplitTop(w: nat, t: nat)
    ensures w * (t + 64) == w * t + w * 64 && w * t >= 0
  {
  }

  lemma HighPowers()
    ensures Pow2(248) == 8 * Pow2(245) && Pow2(254) == Pow2(248) * 64 && Pow2(255) == Pow2(248) * 128
  {
    hide Pow2;
    Pow2Adds(248, 6);
    Pow2Adds(248, 7);
    Pow2Adds(3, 245);
    LowPowers();
  }

  lemma LowPowers()
    ensures Pow2(3) == 8 && Pow2(6) == 64 && Pow2(7) == 128
  {
  }

  lemma Eights(b: nat, rest: nat, t: nat, w: nat, v: nat)
    requires w == 8 * v
    ensures (b + 256 * rest + w * t) / 8 * 8 == b / 8 * 8 + 256 * rest + w * t
    ensures (b / 8 * 8 + 256 * rest + w * t + w * 64) % 8 == 0
  {
    var m := 32 * rest + v * t;
    assert w * t == 8 * (v * t) && w * 64 == 8 * (64 * v);
    QuotientIs(b + 256 * rest + w * t, 8, m + b / 8, b % 8);
    QuotientIs(b / 8 * 8 + 256 * rest + w * t + w * 64, 8, m + b / 8 + 64 * v, 0);
  }

  // ---------------------------------------------------------------- the result

  lemma {:induction false} ZeroBytes(s: seq<uint8>)
    ensures (forall i :: 0 <= i < |s| ==> s[i] == 0) <==> BytesValue(s) == 0
  {
    if s != [] {
      ZeroBytes(s[1..]);
      assert forall i :: 1 <= i < |s| ==> s[i] == s[1..][i - 1];
    }
  }

  /** The bytes of the result are the only 32 bytes that spell it, and it is reported as refused exactly when it is zero. */
  lemma CanonicalResult(out: seq<uint8>, other: seq<uint8>, k: nat, u: int)
    requires |out| == |other| == 32 && BytesValue(out) == ScalarMultiply(k, u)
    ensures 0 <= BytesValue(out) < P
    ensures BytesValue(other) == ScalarMultiply(k, u) <==> other == out
    ensures (forall i :: 0 <= i < 32 ==> out[i] == 0) <==> ScalarMultiply(k, u) == 0
  {
    ZeroBytes(out);
    if BytesValue(other) == BytesValue(out) {
      BytesInjective(other, out);
    }
  }

  /** A ladder that ends at the point at infinity gives the zero result, for which the function reports an error. */
  lemma InfinityIsZero(k: nat, u: int)
    requires Climb(u, k, 0).low.z % P == 0
    ensures ScalarMultiply(k, u) == 0
  {
    var q := Climb(u, k, 0).low;
    CongPower(q.z, 0, P - 2);
    assert Power(0, P - 2) == 0;
    CongProduct(q.x, q.x, Power(q.z, P - 2), 0);
  }
}
