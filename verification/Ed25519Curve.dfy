/**
 The twisted Edwards curve -x^2 + y^2 = 1 + D x^2 y^2 mod 2^255 - 19, and what the
 point representations of ed25519/src/ge.h stand for.
 */
module Ed25519Curve {
  import opened Arith
  import opened Congruence
  import opened Powers
  import opened Ed25519Field

  /** -121665 / 121666 */
  const D: int := 0x52036cee2b6ffe738cc740797779e89800700a4d4141d8ab75eb4dca135978a3

  ghost predicate Eq(a: int, b: int) { Congruent(a, b, P) }

  /** (x, y) lies on the curve.  As for congruences, the equation shows where a proof opens it. */
  ghost predicate OnCurve(x: int, y: int) {
    forall d: int :: Opened(x, y, d) ==> Eq(y * y - x * x, 1 + D * (x * x * (y * y)))
  }

  lemma CurveEquation(x: int, y: int)
    requires OnCurve(x, y)
    ensures Eq(y * y - x * x, 1 + D * (x * x * (y * y)))
  {
    hide Eq;
    assert Opened(x, y, 0);
  }

  /** The product that both denominators of the addition law contain. */
  ghost function Cross(x1: int, y1: int, x2: int, y2: int): int { x1 * x2 * (y1 * y2) }

  /** (x3, y3) is the sum of two points, with denominators cleared. */
  ghost predicate AddsTo(x1: int, y1: int, x2: int, y2: int, x3: int, y3: int) {
    && Eq(x3 * (1 + D * Cross(x1, y1, x2, y2)), x1 * y2 + x2 * y1)
    && Eq(y3 * (1 - D * Cross(x1, y1, x2, y2)), y1 * y2 + x1 * x2)
  }

  //// The field

  ghost predicate NonZero(a: int) { !Eq(a, 0) }

  ghost predicate NoDivisors(a: int, b: int) { NonZero(a) && NonZero(b) ==> NonZero(a * b) }

  ghost predicate LittleTheorem(a: int) { NonZero(a) ==> Eq(Power(a, P - 1), 1) }

  /** What is used of the fact that 2^255 - 19 is prime. */
  ghost predicate Field() {
    (forall a, b :: NoDivisors(a, b)) && (forall a :: LittleTheorem(a))
  }

  /** The denominators of the addition law do not vanish. */
  ghost predicate Regular(x1: int, y1: int, x2: int, y2: int) {
    NonZero(1 + D * Cross(x1, y1, x2, y2)) && NonZero(1 - D * Cross(x1, y1, x2, y2))
  }

  lemma NonZeroProduct(a: int, b: int)
    requires Field() && NonZero(a) && NonZero(b)
    ensures NonZero(a * b)
  {
    assert NoDivisors(a, b);
  }

  lemma Fermat(a: int)
    requires Field() && NonZero(a)
    ensures Eq(Power(a, P - 1), 1)
  {
    hide Power;
    assert LittleTheorem(a);
  }

  lemma NonZeroSame(a: int, b: int)
    requires Eq(a, b) && NonZero(b)
    ensures NonZero(a)
  {
    if Eq(a, 0) {
      Symmetric(a, b, P);
      Transitive(b, a, 0, P);
    }
  }

  lemma NonZeroTwo()
    ensures NonZero(2) && NonZero(1)
  {
    if Eq(2, 0) { Residue(2, 0, P); }
    if Eq(1, 0) { Residue(1, 0, P); }
  }

  //// Working with congruences

  lemma Chain(a: int, b: int, c: int)
    requires Eq(a, b) && Eq(b, c)
    ensures Eq(a, c)
  {
    Transitive(a, b, c, P);
  }

  lemma Minus(a: int, b: int, c: int, d: int)
    requires Eq(a, b) && Eq(c, d)
    ensures Eq(a - c, b - d)
  {
    Scaled(c, d, -1, P);
    Sum(a, b, c * -1, d * -1, P);
  }

  /** Eq(a, b) and Eq(c, d) give Eq(r, b * d) when r is congruent to a * c. */
  lemma Multiplied(r: int, a: int, b: int, c: int, d: int)
    requires Eq(r, a * c) && Eq(a, b) && Eq(c, d)
    ensures Eq(r, b * d)
  {
    Product(a, b, c, d, P);
    Chain(r, a * c, b * d);
  }

  /** A quotient of the addition law: num / den with a common factor w. */
  lemma QuotientLaw(num: int, den: int, w: int, s: int, t: int, x: int)
    requires Eq(num, w * s) && Eq(den, w * t) && Eq(x * t, s)
    ensures Eq(num, x * den)
  {
    Scaled(den, w * t, x, P);
    Scaled(x * t, s, w, P);
    assert den * x == x * den && w * t * x == x * t * w && s * w == w * s;
    Symmetric(x * den, x * t * w, P);
    Symmetric(x * t * w, w * s, P);
    Chain(num, w * s, x * t * w);
    Chain(num, x * t * w, x * den);
  }

  //// The formulas

  /** (y1 + x1)(y2 + x2) and (y1 - x1)(y2 - x2), their difference and their sum. */
  lemma CrossProducts(x1: int, y1: int, x2: int, y2: int, z1: int, z2: int)
    ensures var a, b := (y1 + x1) * z1 * ((y2 + x2) * z2), (y1 - x1) * z1 * ((y2 - x2) * z2);
            var w := 2 * (z1 * z2);
            a - b == w * (x1 * y2 + x2 * y1) && a + b == w * (y1 * y2 + x1 * x2)
  {
    var z := z1 * z2;
    Pair(y1 + x1, z1, y2 + x2, z2);
    Pair(y1 - x1, z1, y2 - x2, z2);
    var m, n := (y1 + x1) * (y2 + x2), (y1 - x1) * (y2 - x2);
    Expand(x1, y1, x2, y2);
    assert m * z - n * z == (m - n) * z;
    assert m * z + n * z == (m + n) * z;
    Doubled(m - n, x1 * y2 + x2 * y1, z);
    Doubled(m + n, y1 * y2 + x1 * x2, z);
  }

  lemma Pair(a: int, z1: int, b: int, z2: int)
    ensures a * z1 * (b * z2) == a * b * (z1 * z2)
  {
    MulAssoc(a, z1, b * z2);
    MulAssoc(a, b, z1 * z2);
    assert z1 * (b * z2) == b * (z1 * z2);
  }

  lemma Expand(x1: int, y1: int, x2: int, y2: int)
    ensures (y1 + x1) * (y2 + x2) - (y1 - x1) * (y2 - x2) == 2 * (x1 * y2 + x2 * y1)
    ensures (y1 + x1) * (y2 + x2) + (y1 - x1) * (y2 - x2) == 2 * (y1 * y2 + x1 * x2)
  {
    assert (y1 + x1) * (y2 + x2) == y1 * y2 + y1 * x2 + x1 * y2 + x1 * x2;
    assert (y1 - x1) * (y2 - x2) == y1 * y2 - y1 * x2 - x1 * y2 + x1 * x2;
  }

  lemma Doubled(m: int, s: int, z: int)
    requires m == 2 * s
    ensures m * z == 2 * z * s
  {
  }

  /** 2 z1 z2 (1 + D x1 x2 y1 y2), from the product of the T coordinates. */
  lemma Denominators(x1: int, y1: int, x2: int, y2: int, z1: int, z2: int)
    ensures var c := 2 * D * (x2 * y2) * z2 * (x1 * y1 * z1);
            var w, u := 2 * (z1 * z2), D * Cross(x1, y1, x2, y2);
            2 * (z1 * z2) + c == w * (1 + u) && 2 * (z1 * z2) - c == w * (1 - u)
  {
    var z := z1 * z2;
    var u := D * Cross(x1, y1, x2, y2);
    calc {
      2 * D * (x2 * y2) * z2 * (x1 * y1 * z1);
      { Pair(2 * D * (x2 * y2), z2, x1 * y1, z1); assert z2 * z1 == z; }
      2 * D * (x2 * y2) * (x1 * y1) * z;
      { MulAssoc(2 * D, x2 * y2, x1 * y1); CrossForm(x1, y1, x2, y2); MulAssoc(2, D, Cross(x1, y1, x2, y2)); }
      2 * u * z;
    }
    assert 2 * z * (1 + u) == 2 * z + 2 * u * z;
    assert 2 * z * (1 - u) == 2 * z - 2 * u * z;
  }

  lemma CrossForm(x1: int, y1: int, x2: int, y2: int)
    ensures x2 * y2 * (x1 * y1) == Cross(x1, y1, x2, y2)
  {
    Pair(x2, y2, x1, y1);
    assert x2 * x1 == x1 * x2 && y2 * y1 == y1 * y2;
  }

  /** The numerators of the unified addition formula, on representatives. */
  lemma Numerators(x1: int, y1: int, x2: int, y2: int, z1: int, z2: int, a: int, b: int)
    requires Eq(a, (y1 + x1) * z1 * ((y2 + x2) * z2)) && Eq(b, (y1 - x1) * z1 * ((y2 - x2) * z2))
    ensures Eq(a - b, 2 * (z1 * z2) * (x1 * y2 + x2 * y1)) && Eq(a + b, 2 * (z1 * z2) * (y1 * y2 + x1 * x2))
  {
    CrossProducts(x1, y1, x2, y2, z1, z2);
    hide Congruent;
    var a', b' := (y1 + x1) * z1 * ((y2 + x2) * z2), (y1 - x1) * z1 * ((y2 - x2) * z2);
    Minus(a, a', b, b');
    Sum(a, a', b, b', P);
  }

  /** Its denominators; u is D times the product of all coordinates. */
  lemma Divisors(x1: int, y1: int, x2: int, y2: int, z1: int, z2: int, c: int, z: int)
    requires Eq(c, 2 * D * (x2 * y2) * z2 * (x1 * y1 * z1)) && Eq(z, z1 * z2)
    ensures var w, u := 2 * (z1 * z2), D * Cross(x1, y1, x2, y2);
            Eq(2 * z + c, w * (1 + u)) && Eq(2 * z - c, w * (1 - u))
  {
    Denominators(x1, y1, x2, y2, z1, z2);
    hide Congruent, Cross;
    var c' := 2 * D * (x2 * y2) * z2 * (x1 * y1 * z1);
    Scaled(z, z1 * z2, 2, P);
    Sum(2 * z, 2 * (z1 * z2), c, c', P);
    Minus(2 * z, 2 * (z1 * z2), c, c');
  }

  /** Both quotients are the coordinates of the sum. */
  lemma Quotients(a: int, b: int, c: int, z: int, w: int, u: int, n: int, m: int, x3: int, y3: int)
    requires Eq(a - b, w * n) && Eq(a + b, w * m) && Eq(2 * z + c, w * (1 + u)) && Eq(2 * z - c, w * (1 - u))
    requires Eq(x3 * (1 + u), n) && Eq(y3 * (1 - u), m)
    ensures Eq(a - b, x3 * (2 * z + c)) && Eq(a + b, y3 * (2 * z - c))
    ensures Field() && NonZero(1 + u) && NonZero(1 - u) && NonZero(w) ==> NonZero(2 * z + c) && NonZero(2 * z - c)
  {
    hide Congruent;
    QuotientLaw(a - b, 2 * z + c, w, n, 1 + u, x3);
    QuotientLaw(a + b, 2 * z - c, w, m, 1 - u, y3);
    hide Eq;
    if Field() && NonZero(1 + u) && NonZero(1 - u) && NonZero(w) {
      hide NonZero, Field;
      NonZeroDenominators(w, 1 + u, 1 - u, 2 * z + c, 2 * z - c);
    }
  }

  lemma NonZeroFactor(z1: int, z2: int)
    ensures Field() && NonZero(z1) && NonZero(z2) ==> NonZero(2 * (z1 * z2))
  {
    hide Eq, Field;
    if Field() && NonZero(z1) && NonZero(z2) {
      NonZeroTwo();
      NonZeroProduct(z1, z2);
      NonZeroProduct(2, z1 * z2);
    }
  }

  /** The unified addition formula: the sum of two points, over denominators that do not vanish. */
  ghost method AdditionLaw(x1: int, y1: int, x2: int, y2: int, x3: int, y3: int, z1: int, z2: int,
                           a: int, b: int, c: int, z: int)
    requires Eq(a, (y1 + x1) * z1 * ((y2 + x2) * z2)) && Eq(b, (y1 - x1) * z1 * ((y2 - x2) * z2))
    requires Eq(c, 2 * D * (x2 * y2) * z2 * (x1 * y1 * z1)) && Eq(z, z1 * z2)
    requires AddsTo(x1, y1, x2, y2, x3, y3)
    ensures Eq(a - b, x3 * (2 * z + c)) && Eq(a + b, y3 * (2 * z - c))
    ensures Field() && Regular(x1, y1, x2, y2) && NonZero(z1) && NonZero(z2)
            ==> NonZero(2 * z + c) && NonZero(2 * z - c)
  {
    hide Eq, Field, NonZero, Cross;
    Numerators(x1, y1, x2, y2, z1, z2, a, b);
    Divisors(x1, y1, x2, y2, z1, z2, c, z);
    Quotients(a, b, c, z, 2 * (z1 * z2), D * Cross(x1, y1, x2, y2), x1 * y2 + x2 * y1, y1 * y2 + x1 * x2, x3, y3);
    NonZeroFactor(z1, z2);
  }

  lemma NonZeroDenominators(w: int, s: int, t: int, a: int, b: int)
    requires Field() && NonZero(w) && NonZero(s) && NonZero(t) && Eq(a, w * s) && Eq(b, w * t)
    ensures NonZero(a) && NonZero(b)
  {
    NonZeroProduct(w, s);
    NonZeroProduct(w, t);
    hide Field;
    NonZeroSame(a, w * s);
    NonZeroSame(b, w * t);
  }

  lemma Squared(a: int, z: int)
    ensures a * z * (a * z) == z * z * (a * a)
  {
    Pair(a, z, a, z);
  }

  /** The doubling formula, on representatives of a point of the curve. */
  lemma DoublingLaw(x: int, y: int, x3: int, y3: int, z: int, xx: int, yy: int, zz: int, t: int)
    requires Eq(xx, x * z * (x * z)) && Eq(yy, y * z * (y * z))
    requires Eq(zz, 2 * (z * z)) && Eq(t, (x + y) * z * ((x + y) * z))
    requires OnCurve(x, y) && AddsTo(x, y, x, y, x3, y3)
    ensures Eq(t - (yy + xx), x3 * (yy - xx)) && Eq(yy + xx, y3 * (zz - (yy - xx)))
    ensures Field() && Regular(x, y, x, y) && NonZero(z) ==> NonZero(yy - xx) && NonZero(zz - (yy - xx))
  {
    var w, u := z * z, D * Cross(x, y, x, y);
    var p, q := x * x, y * y;
    Squared(x, z);
    Squared(y, z);
    Squared(x + y, z);
    hide Congruent;
    Sum(yy, w * q, xx, w * p, P);
    Minus(yy, w * q, xx, w * p);
    Distribute(w, q, p);
    Distribute(w, q, -p);
    assert w * -p == -(w * p);
    // the denominators are those of the addition law, by the curve equation
    OnCurveForm(x, y);
    Scaled(q - p, 1 + u, w, P);
    Chain(yy - xx, w * (q - p), w * (1 + u)) by { assert (q - p) * w == w * (q - p) && (1 + u) * w == w * (1 + u); }
    Minus(zz, 2 * w, yy - xx, w * (1 + u));
    assert 2 * w - w * (1 + u) == w * (1 - u) by { Distribute(w, 1, u); Distribute(w, 1, -u); assert w * -u == -(w * u); }
    // the numerators
    Minus(t, w * ((x + y) * (x + y)), yy + xx, w * (q + p));
    Binomial(x, y, w);
    QuotientLaw(t - (yy + xx), yy - xx, w, x * y + x * y, 1 + u, x3);
    QuotientLaw(yy + xx, zz - (yy - xx), w, y * y + x * x, 1 - u, y3);
    hide Eq;
    if Field() && Regular(x, y, x, y) && NonZero(z) {
      hide NonZero, Field;
      NonZeroProduct(z, z);
      NonZeroDenominators(w, 1 + u, 1 - u, yy - xx, zz - (yy - xx));
    }
  }

  lemma OnCurveForm(x: int, y: int)
    requires OnCurve(x, y)
    ensures Eq(y * y - x * x, 1 + D * Cross(x, y, x, y))
  {
    CurveEquation(x, y);
  }

  lemma Binomial(x: int, y: int, w: int)
    ensures w * ((x + y) * (x + y)) - w * (y * y + x * x) == w * (x * y + x * y)
  {
    assert (x + y) * (x + y) == y * y + x * x + (x * y + x * y);
    Distribute(w, y * y + x * x, x * y + x * y);
  }

  /** From the completed to the extended form. */
  lemma CompletedLaw(x: int, y: int, cx: int, cy: int, cz: int, ct: int)
    requires Eq(cx, x * cz) && Eq(cy, y * ct)
    ensures Eq(cx * ct, x * (cz * ct)) && Eq(cy * cz, y * (cz * ct)) && Eq(cx * cy, x * y * (cz * ct))
  {
    Scaled(cx, x * cz, ct, P);
    Scaled(cy, y * ct, cz, P);
    Product(cx, x * cz, cy, y * ct, P);
    MulAssoc(x, cz, ct);
    assert y * ct * cz == y * (cz * ct);
    Pair(x, cz, y, ct);
  }
}
