/** Congruence of integers modulo m. */
module Congruence {
  import opened Arith

  /** a and b differ by a multiple of m.  The quantifier keeps the multiple out of sight
      except where a proof opens the pair (a, b). */
  ghost predicate Congruent(a: int, b: int, m: int) {
    forall d: int :: Opened(a, b, d) ==> exists k: int :: a == b + k * m
  }

  ghost predicate Opened(a: int, b: int, d: int) { true }

  /** The multiple. */
  lemma Difference(a: int, b: int, m: int) returns (k: int)
    requires Congruent(a, b, m)
    ensures a == b + k * m
  {
    assert Opened(a, b, 0);
    k :| a == b + k * m;
  }

  lemma Differ(a: int, b: int, k: int, m: int)
    requires a == b + m * k
    ensures Congruent(a, b, m)
  {
    assert a == b + k * m;
  }

  lemma Less(a: int, b: int, k: int, m: int)
    requires a == b - m * k
    ensures Congruent(a, b, m)
  {
    assert a == b + -k * m;
  }

  lemma Reflexive(a: int, m: int)
    ensures Congruent(a, a, m)
  {
    assert a == a + 0 * m;
  }

  lemma Symmetric(a: int, b: int, m: int)
    requires Congruent(a, b, m)
    ensures Congruent(b, a, m)
  {
    var k := Difference(a, b, m);
    assert b == a + -k * m;
  }

  lemma Transitive(a: int, b: int, c: int, m: int)
    requires Congruent(a, b, m) && Congruent(b, c, m)
    ensures Congruent(a, c, m)
  {
    var j := Difference(a, b, m);
    var k := Difference(b, c, m);
    assert a == c + (j + k) * m;
  }

  lemma Sum(a: int, b: int, c: int, d: int, m: int)
    requires Congruent(a, b, m) && Congruent(c, d, m)
    ensures Congruent(a + c, b + d, m)
  {
    var j := Difference(a, b, m);
    var k := Difference(c, d, m);
    assert a + c == b + d + (j + k) * m;
  }

  lemma Scaled(a: int, b: int, c: int, m: int)
    requires Congruent(a, b, m)
    ensures Congruent(a * c, b * c, m)
  {
    var k := Difference(a, b, m);
    assert k * m * c == k * c * m;
    assert a * c == b * c + k * c * m;
  }

  lemma Product(a: int, b: int, c: int, d: int, m: int)
    requires Congruent(a, b, m) && Congruent(c, d, m)
    ensures Congruent(a * c, b * d, m)
  {
    Scaled(a, b, c, m);
    Scaled(c, d, b, m);
    Transitive(a * c, b * c, b * d, m);
  }

  /** The only representative in [0, m). */
  lemma Residue(a: int, b: int, m: int)
    requires Congruent(a, b, m) && 0 <= a < m
    ensures a == b % m
  {
    var k := Difference(a, b, m);
    assert b == -k * m + a;
    DivUnique(b, m, -k, a);
  }

  lemma SameResidue(a: int, b: int, m: int)
    requires Congruent(a, b, m) && 0 < m
    ensures a % m == b % m
  {
    var r := a % m;
    assert a == a / m * m + r;
    Differ(a, r, a / m, m);
    Symmetric(a, r, m);
    Transitive(r, a, b, m);
    Residue(r, b, m);
  }
}
