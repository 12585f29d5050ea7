/**
 The square root of u / v that ge_frombytes_negate_vartime computes: why its
 candidate is a root, up to a factor of sqrt(-1), whenever there is one.
 */
module Ed25519Sqrt {
  import opened Arith
  import opened Congruence
  import opened Powers
  import opened Ed25519Field
  import opened Ed25519Curve

  lemma {:induction false} PowerSame(a: int, b: int, e: nat)
    requires Eq(a, b)
    ensures Eq(Power(a, e), Power(b, e))
  {
    if e == 0 {
      Reflexive(1, P);
    } else {
      PowerSame(a, b, e - 1);
      hide Congruent;
      Product(a, b, Power(a, e - 1), Power(b, e - 1), P);
    }
  }

  lemma {:induction false} PowerSquare(z: int, e: nat)
    ensures Power(z * z, e) == Power(z, 2 * e)
  {
    if e > 0 {
      PowerSquare(z, e - 1);
      PowerAdd(z, 2, 2 * e - 2);
      assert Power(z, 1) == z && Power(z, 2) == z * z by { assert Power(z, 0) == 1; }
    }
  }

  /** u v^7 */
  ghost function Seventh(u: int, v: int): int { v * v * v * (v * v * v) * v * u }

  /** u v^3 (u v^7)^((p - 5) / 8) */
  ghost function Beta(u: int, v: int): int { Power(Seventh(u, v), (P - 5) / 8) * (v * v * v) * u }

  /** v beta^2 = u (u v^7)^((p - 1) / 4) */
  lemma BetaSquared(u: int, v: int, e: nat)
    requires e == (P - 5) / 8
    ensures v * (Beta(u, v) * Beta(u, v)) == u * Power(Seventh(u, v), 2 * e + 1)
  {
    var w, c := Seventh(u, v), v * v * v;
    var q := Power(w, e);
    PowerAdd(w, e, e);
    PowerAdd(w, 2 * e, 1);
    assert Power(w, 1) == w by { assert Power(w, 0) == 1; }
    hide Power;
    calc {
      v * (q * c * u * (q * c * u));
      { Rearrange(v, q, c, u); }
      u * (q * q * (c * c * v * u));
      u * (q * q * w);
    }
  }

  lemma Rearrange(v: int, q: int, c: int, u: int)
    ensures v * (q * c * u * (q * c * u)) == u * (q * q * (c * c * v * u))
  {
    var a := q * c;
    assert a * u * (a * u) == a * a * (u * u);
    assert a * a == q * q * (c * c);
    var m, n := q * q, c * c;
    assert v * (m * n * (u * u)) == u * (m * (n * v * u)) by {
      assert m * n * (u * u) == m * n * u * u;
      assert v * (m * n * u * u) == m * n * u * u * v;
      assert m * (n * v * u) == m * n * v * u;
      assert u * (m * n * v * u) == m * n * u * u * v;
    }
  }

  /** If u = v x^2 then u v^7 is the square of x v^4. */
  lemma SeventhIsSquare(u: int, v: int, x: int)
    requires Eq(u, v * (x * x))
    ensures var z := x * (v * v) * (v * v); Eq(Seventh(u, v), z * z)
  {
    hide Congruent;
    var s := v * v * v * (v * v * v) * v;
    Scaled(u, v * (x * x), s, P);
    assert u * s == s * u;
    EighthPower(v, x);
  }

  lemma EighthPower(v: int, x: int)
    ensures var s, z := v * v * v * (v * v * v) * v, x * (v * v) * (v * v); v * (x * x) * s == z * z
  {
    var a := v * v;
    CubeSquared(v, a);
    SixSevens(v, x * x, a);
    SquareOf(x, a);
  }

  lemma CubeSquared(v: int, a: int)
    requires a == v * v
    ensures a * v * (a * v) == a * a * a
  {
    Pair(a, v, a, v);
  }

  lemma SixSevens(v: int, b: int, a: int)
    requires a == v * v
    ensures v * b * (a * a * a * v) == b * (a * a) * (a * a)
  {
    var c := a * a;
    Pair(v, b, v, c * a);
    assert a * a * a * v == v * (c * a);
    assert a * (b * (c * a)) == b * c * c;
  }

  lemma SquareOf(x: int, a: int)
    ensures x * a * a * (x * a * a) == x * x * (a * a) * (a * a)
  {
    Pair(x * a, a, x * a, a);
    Pair(x, a, x, a);
  }

  lemma NonZeroDifference(a: int, b: int)
    requires !Eq(a, b)
    ensures NonZero(a - b)
  {
    hide Congruent;
    if Eq(a - b, 0) {
      Reflexive(b, P);
      Sum(a - b, 0, b, b, P);
    }
  }

  /** A square root of 1 is 1 or -1. */
  lemma UnitRoots(t: int)
    requires Field() && Eq(t * t, 1)
    ensures Eq(t, 1) || Eq(t, -1)
  {
    hide Field, Congruent;
    if !Eq(t, 1) && !Eq(t, -1) {
      NonZeroDifference(t, 1);
      NonZeroDifference(t, -1);
      NonZeroProduct(t - 1, t + 1);
      Reflexive(1, P);
      Minus(t * t, 1, 1, 1);
      DifferenceOfSquares(1, t, 1);
    }
  }

  /** The candidate solves v beta^2 = u or v beta^2 = -u when u / v is a square. */
  lemma BetaWorks(u: int, v: int, x: int)
    requires Field() && NonZero(v) && Eq(u, v * (x * x))
    ensures var s := v * (Beta(u, v) * Beta(u, v)); Eq(s, u) || Eq(s, -u)
  {
    hide Beta, Seventh, Power, Congruent, Field;
    var e, w, s := (P - 5) / 8, Seventh(u, v), v * (Beta(u, v) * Beta(u, v));
    var z := x * (v * v) * (v * v);
    BetaSquared(u, v, e);
    SeventhIsSquare(u, v, x);
    PowerSame(w, z * z, 2 * e + 1);
    PowerSquare(z, 2 * e + 1);
    var t := Power(z, 2 * (2 * e + 1));
    Scaled(Power(w, 2 * e + 1), t, u, P);
    assert Eq(s, u * t) by { assert Power(w, 2 * e + 1) * u == s && t * u == u * t; }
    if NonZero(x) {
      SignOfRoot(u, v, x, z, t, s);
    } else {
      ZeroRoot(u, v, x, t, s);
    }
  }

  lemma ZeroRoot(u: int, v: int, x: int, t: int, s: int)
    requires Eq(x, 0) && Eq(u, v * (x * x)) && Eq(s, u * t)
    ensures Eq(s, u)
  {
    hide Congruent;
    Scaled(x, 0, x, P);
    Scaled(x * x, 0, v, P);
    assert 0 * x == 0 && x * x * v == v * (x * x) && 0 * v == 0;
    Chain(u, v * (x * x), 0);
    Scaled(u, 0, t, P);
    assert 0 * t == 0;
    Chain(s, u * t, 0);
    Symmetric(u, 0, P);
    Chain(s, 0, u);
  }

  lemma SignOfRoot(u: int, v: int, x: int, z: int, t: int, s: int)
    requires Field() && NonZero(x) && NonZero(v) && z == x * (v * v) * (v * v)
    requires t == Power(z, 2 * (2 * ((P - 5) / 8) + 1)) && Eq(s, u * t)
    ensures Eq(s, u) || Eq(s, -u)
  {
    hide Congruent, Power, Field, NonZero;
    var h := 2 * (2 * ((P - 5) / 8) + 1);
    NonZeroProduct(v, v);
    NonZeroProduct(x, v * v);
    NonZeroProduct(x * (v * v), v * v);
    Fermat(z);
    PowerAdd(z, h, h);
    assert h + h == P - 1;
    UnitRoots(t);
    if Eq(t, 1) {
      Scaled(t, 1, u, P);
      Chain(s, u * t, u) by { assert t * u == u * t && 1 * u == u; }
    } else {
      Scaled(t, -1, u, P);
      Chain(s, u * t, -u) by { assert t * u == u * t && -1 * u == -u; }
    }
  }

  /** Two roots of the same equation differ in sign only. */
  lemma TwoRoots(v: int, a: int, b: int, u: int)
    requires Field() && NonZero(v) && Eq(v * (a * a), u) && Eq(v * (b * b), u)
    ensures Eq(a, b) || Eq(a, -b)
  {
    hide Field, Congruent;
    if !Eq(a, b) && !Eq(a, -b) {
      NonZeroDifference(a, b);
      NonZeroDifference(a, -b);
      NonZeroProduct(a - b, a + b);
      NonZeroProduct(v, (a - b) * (a + b));
      Minus(v * (a * a), u, v * (b * b), u);
      DifferenceOfSquares(v, a, b);
    }
  }

  lemma DifferenceOfSquares(v: int, a: int, b: int)
    ensures v * ((a - b) * (a + b)) == v * (a * a) - v * (b * b)
  {
    assert (a - b) * (a + b) == a * a - b * b;
    Distribute(v, a * a, -(b * b));
    assert v * -(b * b) == -(v * (b * b));
  }
}
