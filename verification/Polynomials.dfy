/**
 * Polynomials over the field of two elements, as the finite set of exponents whose coefficient is 1, and the residues
 * modulo X^128 + X^7 + X^2 + X + 1 (NIST SP 800-38D, section 6.3).
 */
module Polynomials {
  type Poly = set<nat>

  /** Addition and subtraction are the same: coefficients that meet cancel. */
  ghost function Plus(a: Poly, b: Poly): Poly {
    (a - b) + (b - a)
  }

  /** A number above every exponent. */
  ghost function Bound(a: Poly): (n: nat)
    ensures forall e :: e in a ==> e < n
  {
    if a == {} then 0
    else
      var e :| e in a;
      var rest := a - {e};
      var m := Bound(rest);
      assert forall x :: x in a ==> x == e || x in rest;
      if m <= e then e + 1 else m
  }

  /** The product with X^k. */
  ghost function Shift(a: Poly, k: nat): (s: Poly)
    ensures forall e :: e in s <==> Shifted(a, k, e)
  {
    set e: nat | 0 <= e < k + Bound(a) && Shifted(a, k, e)
  }

  predicate Shifted(a: Poly, k: nat, e: nat) {
    e >= k && e - k in a
  }

  lemma ShiftPlus(a: Poly, b: Poly, k: nat)
    ensures Shift(Plus(a, b), k) == Plus(Shift(a, k), Shift(b, k))
  {
  }

  lemma ShiftShift(a: Poly, j: nat, k: nat)
    ensures Shift(Shift(a, j), k) == Shift(a, j + k)
  {
  }

  // ------------------------------------------------------------------------------- products

  /** The product of b with the terms of a below X^n. */
  ghost function Partial(a: Poly, b: Poly, n: nat): Poly {
    if n == 0 then {} else Plus(Partial(a, b, n - 1), Term(a, b, n - 1))
  }

  ghost function Term(a: Poly, b: Poly, k: nat): Poly {
    if k in a then Shift(b, k) else {}
  }

  ghost predicate Below(a: Poly, n: nat) {
    forall e :: e in a ==> e < n
  }

  ghost function Product(a: Poly, b: Poly): Poly {
    Partial(a, b, Bound(a))
  }

  lemma {:induction false} PartialAbove(a: Poly, b: Poly, m: nat, n: nat)
    requires Below(a, m) && m <= n
    ensures Partial(a, b, n) == Partial(a, b, m)
    decreases n
  {
    if m < n {
      PartialAbove(a, b, m, n - 1);
    }
  }

  lemma ProductIs(a: Poly, b: Poly, n: nat)
    requires Below(a, n)
    ensures Product(a, b) == Partial(a, b, n)
  {
    if Bound(a) <= n {
      PartialAbove(a, b, Bound(a), n);
    } else {
      PartialAbove(a, b, n, Bound(a));
    }
  }

  lemma Middle(a: Poly, b: Poly, c: Poly, d: Poly)
    ensures Plus(Plus(a, b), Plus(c, d)) == Plus(Plus(a, c), Plus(b, d))
  {
  }

  lemma {:induction false} PartialPlusRight(a: Poly, b: Poly, b': Poly, n: nat)
    ensures Partial(a, Plus(b, b'), n) == Plus(Partial(a, b, n), Partial(a, b', n))
  {
    if n > 0 {
      PartialPlusRight(a, b, b', n - 1);
      ShiftPlus(b, b', n - 1);
      Middle(Partial(a, b, n - 1), Partial(a, b', n - 1), Term(a, b, n - 1), Term(a, b', n - 1));
    }
  }

  lemma {:induction false} PartialShift(a: Poly, b: Poly, k: nat, n: nat)
    ensures Partial(a, Shift(b, k), n) == Shift(Partial(a, b, n), k)
  {
    if n > 0 {
      PartialShift(a, b, k, n - 1);
      ShiftPlus(Partial(a, b, n - 1), Term(a, b, n - 1), k);
      ShiftShift(b, k, n - 1);
      ShiftShift(b, n - 1, k);
    }
  }

  ghost function Under(a: Poly, n: nat): Poly {
    set e | e in a && e < n
  }

  lemma {:induction false} PartialPower(a: Poly, k: nat, n: nat)
    ensures Partial(a, {k}, n) == Shift(Under(a, n), k)
  {
    if n > 0 {
      PartialPower(a, k, n - 1);
      assert Under(a, n) == Plus(Under(a, n - 1), if n - 1 in a then {n - 1} else {});
      ShiftPlus(Under(a, n - 1), if n - 1 in a then {n - 1} else {}, k);
      assert Shift({k}, n - 1) == Shift({n - 1}, k);
    }
  }

  lemma {:induction false} PartialSwaps(a: Poly, b: Poly, m: nat, n: nat)
    ensures Partial(a, Under(b, m), n) == Partial(b, Under(a, n), m)
    decreases m
  {
    if m == 0 {
      PartialNothing(a, n);
      assert Under(b, 0) == {};
    } else {
      PartialSwaps(a, b, m - 1, n);
      var last := if m - 1 in b then {m - 1} else {};
      assert Under(b, m) == Plus(Under(b, m - 1), last);
      PartialPlusRight(a, Under(b, m - 1), last, n);
      PartialPower(a, m - 1, n);
      PartialNothing(a, n);
    }
  }

  lemma {:induction false} PartialNothing(a: Poly, n: nat)
    ensures Partial(a, {}, n) == {}
  {
    if n > 0 {
      PartialNothing(a, n - 1);
      assert Shift({}, n - 1) == {};
    }
  }

  lemma ProductCommutes(a: Poly, b: Poly)
    ensures Product(a, b) == Product(b, a)
  {
    PartialSwaps(a, b, Bound(b), Bound(a));
    assert Under(b, Bound(b)) == b && Under(a, Bound(a)) == a;
  }

  lemma ProductPlus(a: Poly, b: Poly, c: Poly)
    ensures Product(a, Plus(b, c)) == Plus(Product(a, b), Product(a, c))
    ensures Product(Plus(b, c), a) == Plus(Product(b, a), Product(c, a))
  {
    PartialPlusRight(a, b, c, Bound(a));
    ProductCommutes(a, Plus(b, c));
    ProductCommutes(a, b);
    ProductCommutes(a, c);
  }

  lemma ProductShift(a: Poly, b: Poly, k: nat)
    ensures Product(a, Shift(b, k)) == Shift(Product(a, b), k)
    ensures Product(Shift(b, k), a) == Shift(Product(b, a), k)
  {
    PartialShift(a, b, k, Bound(a));
    ProductCommutes(a, Shift(b, k));
    ProductCommutes(a, b);
  }

  lemma ProductNothing(a: Poly)
    ensures Product({}, a) == {} == Product(a, {})
  {
    ProductCommutes({}, a);
    PartialNothing(a, Bound(a));
  }

  lemma {:induction false} PartialAssociates(a: Poly, b: Poly, c: Poly, n: nat)
    ensures Product(Partial(a, b, n), c) == Partial(a, Product(b, c), n)
  {
    hide Plus, Shift, Product;
    if n == 0 {
      ProductNothing(c);
    } else {
      PartialAssociates(a, b, c, n - 1);
      ProductPlus(c, Partial(a, b, n - 1), Term(a, b, n - 1));
      ProductShift(c, b, n - 1);
      ProductNothing(c);
    }
  }

  lemma ProductAssociates(a: Poly, b: Poly, c: Poly)
    ensures Product(Product(a, b), c) == Product(a, Product(b, c))
  {
    PartialAssociates(a, b, c, Bound(a));
  }

  lemma ProductOne(a: Poly)
    ensures Product({0}, a) == a
  {
    ProductIs({0}, a, 1);
    assert Partial({0}, a, 1) == Plus(Partial({0}, a, 0), Shift(a, 0));
    assert Shift(a, 0) == a;
  }

  // ------------------------------------------------------------------------------- residues

  /** The product of q with X^128 + X^7 + X^2 + X + 1. */
  ghost function Multiple(q: Poly): Poly {
    Plus(Shift(q, 128), Plus(Shift(q, 7), Plus(Shift(q, 2), Plus(Shift(q, 1), q))))
  }

  ghost const MODULUS: Poly := {128, 7, 2, 1, 0}

  lemma MultipleIsProduct(q: Poly)
    ensures Multiple(q) == Product(q, MODULUS)
  {
    var m1, m2, m7 := Plus({1}, {0}), Plus({2}, {1, 0}), Plus({7}, {2, 1, 0});
    assert m1 == {1, 0} && m2 == {2, 1, 0} && m7 == {7, 2, 1, 0} && Plus({128}, m7) == MODULUS;
    hide Plus, Shift, Product;
    ProductPlus(q, {128}, m7);
    ProductPlus(q, {7}, m2);
    ProductPlus(q, {2}, m1);
    ProductPlus(q, {1}, {0});
    ProductPowers(q);
  }

  lemma ProductPowers(q: Poly)
    ensures Product(q, {0}) == q && Product(q, {1}) == Shift(q, 1) && Product(q, {2}) == Shift(q, 2)
    ensures Product(q, {7}) == Shift(q, 7) && Product(q, {128}) == Shift(q, 128)
  {
    hide Product;
    ProductCommutes(q, {0});
    ProductOne(q);
    PowerTimes(q, 1);
    PowerTimes(q, 2);
    PowerTimes(q, 7);
    PowerTimes(q, 128);
  }

  lemma PowerTimes(q: Poly, k: nat)
    ensures Product(q, {k}) == Shift(q, k)
  {
    ProductCommutes({k}, q);
    assert Shift({0}, k) == {k};
    ProductShift(q, {0}, k);
    ProductOne(q);
  }

  /** a and b leave the same residue: they differ by a multiple of the modulus. */
  ghost predicate Cong(a: Poly, b: Poly) {
    exists q :: Plus(a, b) == Multiple(q)
  }

  lemma MultiplePlus(p: Poly, q: Poly)
    ensures Multiple(Plus(p, q)) == Plus(Multiple(p), Multiple(q))
  {
    hide Plus, Shift;
    ShiftPlus(p, q, 128);
    ShiftPlus(p, q, 7);
    ShiftPlus(p, q, 2);
    ShiftPlus(p, q, 1);
    var p1, q1 := Plus(Shift(p, 1), p), Plus(Shift(q, 1), q);
    var p2, q2 := Plus(Shift(p, 2), p1), Plus(Shift(q, 2), q1);
    var p7, q7 := Plus(Shift(p, 7), p2), Plus(Shift(q, 7), q2);
    Middle(Shift(p, 1), Shift(q, 1), p, q);
    Middle(Shift(p, 2), Shift(q, 2), p1, q1);
    Middle(Shift(p, 7), Shift(q, 7), p2, q2);
    Middle(Shift(p, 128), Shift(q, 128), p7, q7);
  }

  lemma CongRefl(a: Poly)
    ensures Cong(a, a)
  {
    assert Multiple({}) == {};
    assert Plus(a, a) == Multiple({});
  }

  lemma CongTrans(a: Poly, b: Poly, c: Poly)
    requires Cong(a, b) && Cong(b, c)
    ensures Cong(a, c)
  {
    hide Multiple;
    var p :| Plus(a, b) == Multiple(p);
    var q :| Plus(b, c) == Multiple(q);
    MultiplePlus(p, q);
    assert Plus(a, c) == Plus(Plus(a, b), Plus(b, c));
  }

  lemma CongSym(a: Poly, b: Poly)
    requires Cong(a, b)
    ensures Cong(b, a)
  {
    assert Plus(b, a) == Plus(a, b);
  }

  lemma CongPlus(a: Poly, a': Poly, b: Poly, b': Poly)
    requires Cong(a, a') && Cong(b, b')
    ensures Cong(Plus(a, b), Plus(a', b'))
  {
    var p :| Plus(a, a') == Multiple(p);
    var q :| Plus(b, b') == Multiple(q);
    MultiplePlus(p, q);
    Middle(a, b, a', b');
  }

  lemma CongProductLeft(a: Poly, a': Poly, b: Poly)
    requires Cong(a, a')
    ensures Cong(Product(a, b), Product(a', b))
  {
    var p :| Plus(a, a') == Multiple(p);
    ProductPlus(b, a, a');
    MultipleIsProduct(p);
    ProductAssociates(b, p, MODULUS);
    ProductCommutes(b, Product(p, MODULUS));
    MultipleIsProduct(Product(b, p));
  }

  lemma {:induction false} Largest(q: Poly) returns (m: nat)
    requires q != {}
    ensures m in q && forall e :: e in q ==> e <= m
  {
    var some :| some in q;
    var rest := q - {some};
    assert forall e :: e in q ==> e == some || e in rest;
    m := some;
    if rest != {} {
      var n := Largest(rest);
      if n > m {
        m := n;
      }
    }
  }

  lemma LeadingTerm(q: Poly) returns (m: nat)
    requires q != {}
    ensures m >= 128 && m in Multiple(q)
  {
    var top := Largest(q);
    m := top + 128;
    assert m in Shift(q, 128) && m !in Shift(q, 7) && m !in Shift(q, 2) && m !in Shift(q, 1) && m !in q;
  }

  /** A residue has one representative below degree 128. */
  lemma ResidueUnique(a: Poly, b: Poly)
    requires Cong(a, b) && Below(a, 128) && Below(b, 128)
    ensures a == b
  {
    var q :| Plus(a, b) == Multiple(q);
    if q != {} {
      var m := LeadingTerm(q);
      assert false;
    }
    assert Plus(a, b) == {};
    assert a - b == {} && b - a == {};
  }
}
