/** Arithmetic modulo the prime 2^255 - 19 (RFC 7748, section 4.1). */
module Modular {

  const P: int := 0x7fff_ffff_ffff_ffff_ffff_ffff_ffff_ffff_ffff_ffff_ffff_ffff_ffff_ffff_ffff_ffed

  /** a and b name the same element of the field. */
  ghost predicate Cong(a: int, b: int) {
    a % P == b % P
  }

  lemma MultipleVanishes(a: int, k: int)
    ensures (a + k * P) % P == a % P
  {
    var q, r := a / P, a % P;
    var q', r' := (a + k * P) / P, (a + k * P) % P;
    assert P * (q' - q - k) == r - r';
  }

  lemma CongByMultiple(a: int, b: int, k: int)
    requires a == b + k * P
    ensures Cong(a, b)
  {
    MultipleVanishes(b, k);
  }

  lemma CongDifference(a: int, b: int) returns (k: int)
    requires Cong(a, b)
    ensures a == b + k * P
  {
    k := a / P - b / P;
  }

  lemma CongSum(a: int, a': int, b: int, b': int)
    requires Cong(a, a') && Cong(b, b')
    ensures Cong(a + b, a' + b') && Cong(a - b, a' - b')
  {
    var j := CongDifference(a, a');
    var k := CongDifference(b, b');
    CongByMultiple(a + b, a' + b', j + k);
    CongByMultiple(a - b, a' - b', j - k);
  }

  lemma CongProduct(a: int, a': int, b: int, b': int)
    requires Cong(a, a') && Cong(b, b')
    ensures Cong(a * b, a' * b')
  {
    var j := CongDifference(a, a');
    var k := CongDifference(b, b');
    calc {
      a * b;
      (a' + j * P) * b;
      a' * b + (j * b) * P;
      a' * (b' + k * P) + (j * b) * P;
      a' * b' + (a' * k + j * b) * P;
    }
    CongByMultiple(a * b, a' * b', a' * k + j * b);
  }

  lemma CongResidue(a: int)
    ensures Cong(a % P, a)
  {
    CongByMultiple(a, a % P, a / P);
  }
}
