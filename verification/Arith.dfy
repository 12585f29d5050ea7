/** Powers of two and division, shared by the other modules. */
module Arith {

  function Pow2(n: nat): nat { if n == 0 then 1 else 2 * Pow2(n - 1) }

  lemma {:induction false} Pow2Positive(n: nat)
    ensures Pow2(n) > 0
  {
    if n > 0 { Pow2Positive(n - 1); }
  }

  lemma PowNext(k: nat)
    ensures Pow2(k + 1) == 2 * Pow2(k)
  {
  }

  lemma {:induction false} Pow2Add(a: nat, b: nat)
    ensures Pow2(a + b) == Pow2(a) * Pow2(b)
    decreases a
  {
    if a > 0 {
      Pow2Add(a - 1, b);
      var x, y, z := Pow2(a - 1), Pow2(b), Pow2(a - 1 + b);
      assert Pow2(a + b) == 2 * z;
      assert 2 * (x * y) == (2 * x) * y;
    }
  }

  lemma {:induction false} Pow2Monotone(a: nat, b: nat)
    requires a <= b
    ensures Pow2(a) <= Pow2(b)
    decreases b
  {
    if a < b { Pow2Monotone(a, b - 1); }
  }

  lemma Pow2Small()
    ensures Pow2(8) == 0x100 && Pow2(16) == 0x1_0000 && Pow2(32) == 0x1_0000_0000
  {
    assert Pow2(4) == 16;
    Pow2Add(4, 4);
    Pow2Add(8, 8);
    Pow2Add(16, 16);
  }

  // The exponent is a parameter so that the solver does not unfold its power.
  lemma Pow2Of256(a: nat)
    requires a == 32
    ensures Pow2(8 * a) == 0x1_00000000_00000000_00000000_00000000_00000000_00000000_00000000_00000000
  {
    Pow2Small();
    hide Pow2;
    Pow2Add(a, a);
    Pow2Add(2 * a, 2 * a);
    Pow2Add(4 * a, 4 * a);
  }

  /** Quotient and remainder are the only ones. */
  lemma DivUnique(a: int, d: int, q: int, r: int)
    requires 0 <= r < d && a == q * d + r
    ensures a / d == q && a % d == r
  {
    var q', r' := a / d, a % d;
    assert (q' - q) * d == r - r';
    assert (q - q') * d == r' - r;
    if q' > q { MulStrict(q' - q, d); } else if q' < q { MulStrict(q - q', d); }
  }

  lemma MulStrict(k: int, d: int)
    requires 0 < k && 0 < d
    ensures k * d >= d
  {
  }

  lemma DivDiv(a: nat, b: nat, c: nat)
    requires 0 < b && 0 < c
    ensures 0 < b * c && a / b / c == a / (b * c)
  {
    var q, r := a / b, a % b;
    var p, s := q / c, q % c;
    MulStrict(b, c);
    assert a == q * b + r && q == p * c + s;
    assert (p * c + s) * b == p * (b * c) + s * b by { assert p * (b * c) == p * c * b; }
    assert s * b + r < b * c by {
      assert s <= c - 1;
      assert s * b <= (c - 1) * b by { MulMono(s, c - 1, b); }
      assert (c - 1) * b == b * c - b;
    }
    assert 0 <= s * b;
    DivUnique(a, b * c, p, s * b + r);
  }

  lemma MulMono(x: int, y: int, b: int)
    requires x <= y && 0 <= b
    ensures x * b <= y * b
  {
    assert (y - x) * b >= 0;
    assert (y - x) * b == y * b - x * b;
  }

  lemma DivBelow(x: nat, d: nat, n: nat)
    requires 0 < d && x < d * n
    ensures x / d < n
  {
    var q := x / d;
    assert q * d <= x;
    if q >= n { MulMono(n, q, d); }
  }

  lemma DivNonNegative(x: nat, d: nat)
    requires 0 < d
    ensures 0 <= x / d && (x / d == 0 <==> x < d)
  {
    var q := x / d;
    assert x == q * d + x % d;
    if q < 0 { MulMono(q, -1, d); }
    if q > 0 { MulStrict(q, d); }
  }

  lemma MulAssoc(a: int, b: int, c: int)
    ensures a * b * c == a * (b * c)
  {
  }

  lemma Distribute(a: int, b: int, c: int)
    ensures a * (b + c) == a * b + a * c
  {
  }

  /** Adding a multiple of the modulus changes nothing. */
  lemma AddMultiple(b: int, k: int, p: int)
    requires 0 < p
    ensures (b + p * k) % p == b % p
  {
    var q, r := b / p, b % p;
    assert b == q * p + r;
    assert p * k == k * p;
    assert (q + k) * p == q * p + k * p;
    DivUnique(b + p * k, p, q + k, r);
  }

  lemma Regroup(x: int, y: int, w: int)
    ensures x * w == y * w + (x - y) * w
  {
  }
}
