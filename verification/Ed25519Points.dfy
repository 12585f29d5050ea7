/**
 The point formulas of ed25519/src/ge.c.  Each is proved to keep its limbs within
 the bounds that fe_mul and fe_sq need, and to compute what the addition law of
 the curve says.  Coordinates (x, y) appear as ghost arguments.
 */
module Ed25519Points {
  import opened Arith
  import opened Congruence
  import opened Ints
  import opened Ed25519Field
  import opened Ed25519FieldMul
  import opened Ed25519FieldSq
  import opened Ed25519FieldOps
  import opened Ed25519Curve

  datatype P2 = P2(X: Fe, Y: Fe, Z: Fe)
  datatype P3 = P3(X: Fe, Y: Fe, Z: Fe, T: Fe)
  datatype P1P1 = P1P1(X: Fe, Y: Fe, Z: Fe, T: Fe)
  datatype Cached = Cached(YplusX: Fe, YminusX: Fe, Z: Fe, T2d: Fe)
  datatype Precomp = Precomp(yplusx: Fe, yminusx: Fe, xy2d: Fe)

  //// Bounds and meanings

  ghost predicate Is2(p: P2, x: int, y: int) {
    && Bound(p.X, 1) && Bound(p.Y, 1) && Bound(p.Z, 1)
    && Eq(FeVal(p.X), x * FeVal(p.Z)) && Eq(FeVal(p.Y), y * FeVal(p.Z))
  }

  ghost predicate Is3(p: P3, x: int, y: int) {
    && Bound(p.X, 1) && Bound(p.Y, 1) && Bound(p.Z, 1) && Bound(p.T, 1)
    && Eq(FeVal(p.X), x * FeVal(p.Z)) && Eq(FeVal(p.Y), y * FeVal(p.Z)) && Eq(FeVal(p.T), x * y * FeVal(p.Z))
  }

  ghost predicate Is1(p: P1P1, x: int, y: int) {
    && Bound(p.X, 3) && Bound(p.Y, 3) && Bound(p.Z, 3) && Bound(p.T, 3)
    && Eq(FeVal(p.X), x * FeVal(p.Z)) && Eq(FeVal(p.Y), y * FeVal(p.T))
  }

  /** A completed point with nonzero denominators. */
  ghost predicate Proper(p: P1P1) { NonZero(FeVal(p.Z)) && NonZero(FeVal(p.T)) }

  ghost predicate IsCached(q: Cached, x: int, y: int) {
    && Bound(q.YplusX, 2) && Bound(q.YminusX, 2) && Bound(q.Z, 1) && Bound(q.T2d, 1)
    && forall d: int :: Opened(FeVal(q.Z), x, d) ==> CachedCoordinates(q, x, y)
  }

  ghost predicate CachedCoordinates(q: Cached, x: int, y: int) {
    && Eq(FeVal(q.YplusX), (y + x) * FeVal(q.Z)) && Eq(FeVal(q.YminusX), (y - x) * FeVal(q.Z))
    && Eq(FeVal(q.T2d), 2 * D * (x * y) * FeVal(q.Z))
  }

  ghost predicate IsPrecomp(q: Precomp, x: int, y: int) {
    && Bound(q.yplusx, 1) && Bound(q.yminusx, 1) && Bound(q.xy2d, 1)
    && Eq(FeVal(q.yplusx), y + x) && Eq(FeVal(q.yminusx), y - x) && Eq(FeVal(q.xy2d), 2 * D * (x * y))
  }

  //// Field operations on bounded operands

  method FMul(f: Fe, g: Fe, ghost m: nat, ghost n: nat) returns (h: Fe)
    requires Bound(f, m) && Bound(g, n) && 1 <= m <= 3 && 1 <= n <= 3
    ensures Bound(h, 1) && Eq(FeVal(h), FeVal(f) * FeVal(g))
  {
    BoundsNest(f);
    BoundsNest(g);
    hide FeVal, Congruent, Bound, Loose, Tight;
    h := FeMul(f, g);
    BoundsNest(h);
  }

  method FSq(f: Fe, ghost m: nat) returns (h: Fe)
    requires Bound(f, m) && 1 <= m <= 3
    ensures Bound(h, 1) && Eq(FeVal(h), FeVal(f) * FeVal(f))
  {
    BoundsNest(f);
    hide FeVal, Congruent, Bound, Loose, Tight;
    h := FeSq(f);
    BoundsNest(h);
  }

  method FSq2(f: Fe, ghost m: nat) returns (h: Fe)
    requires Bound(f, m) && 1 <= m <= 3
    ensures Bound(h, 1) && Eq(FeVal(h), 2 * (FeVal(f) * FeVal(f)))
  {
    BoundsNest(f);
    hide FeVal, Congruent, Bound, Loose, Tight;
    h := FeSq2(f);
    BoundsNest(h);
  }

  /** Y + X and Y - X of a represented point. */
  lemma SumAndDifference(x: int, y: int, vx: int, vy: int, vz: int)
    requires Eq(vx, x * vz) && Eq(vy, y * vz)
    ensures Eq(vy + vx, (y + x) * vz) && Eq(vy - vx, (y - x) * vz)
  {
    Sum(vy, y * vz, vx, x * vz, P);
    Minus(vy, y * vz, vx, x * vz);
    assert y * vz + x * vz == (y + x) * vz && y * vz - x * vz == (y - x) * vz;
  }

  //// Formulas

  /** ge_add */
  method GeAdd(p: P3, q: Cached, ghost x1: int, ghost y1: int, ghost x2: int, ghost y2: int, ghost x3: int, ghost y3: int)
    returns (r: P1P1)
    requires Is3(p, x1, y1) && IsCached(q, x2, y2) && AddsTo(x1, y1, x2, y2, x3, y3)
    ensures Is1(r, x3, y3)
    ensures Field() && Regular(x1, y1, x2, y2) && NonZero(FeVal(p.Z)) && NonZero(FeVal(q.Z)) ==> Proper(r)
  {
    hide FeVal, Bound, Eq, AddsTo, NonZero, Field, Regular;
    var s := FeAdd(p.Y, p.X, 1, 1);
    var d := FeSub(p.Y, p.X, 1, 1);
    var a := FMul(s, q.YplusX, 2, 2);
    var b := FMul(d, q.YminusX, 2, 2);
    var c := FMul(q.T2d, p.T, 1, 1);
    var z := FMul(p.Z, q.Z, 1, 1);
    var t0 := FeAdd(z, z, 1, 1);
    ghost var z1, z2 := FeVal(p.Z), FeVal(q.Z);
    assert Opened(z2, x2, 0);
    SumAndDifference(x1, y1, FeVal(p.X), FeVal(p.Y), z1);
    Multiplied(FeVal(a), FeVal(s), (y1 + x1) * z1, FeVal(q.YplusX), (y2 + x2) * z2);
    Multiplied(FeVal(b), FeVal(d), (y1 - x1) * z1, FeVal(q.YminusX), (y2 - x2) * z2);
    Multiplied(FeVal(c), FeVal(q.T2d), 2 * D * (x2 * y2) * z2, FeVal(p.T), x1 * y1 * z1);
    AdditionLaw(x1, y1, x2, y2, x3, y3, z1, z2, FeVal(a), FeVal(b), FeVal(c), FeVal(z));
    r := Assemble(a, b, t0, c, false);
  }

  /** The last four lines of an addition or subtraction. */
  method Assemble(a: Fe, b: Fe, t0: Fe, c: Fe, subtract: bool) returns (r: P1P1)
    requires Bound(a, 1) && Bound(b, 1) && Bound(t0, 2) && Bound(c, 1)
    ensures Bound(r.X, 3) && Bound(r.Y, 3) && Bound(r.Z, 3) && Bound(r.T, 3)
    ensures FeVal(r.X) == FeVal(a) - FeVal(b) && FeVal(r.Y) == FeVal(a) + FeVal(b)
    ensures FeVal(r.Z) == FeVal(t0) + (if subtract then -FeVal(c) else FeVal(c))
    ensures FeVal(r.T) == FeVal(t0) - (if subtract then -FeVal(c) else FeVal(c))
  {
    hide FeVal, Bound;
    var x := FeSub(a, b, 1, 1);
    var y := FeAdd(a, b, 1, 1);
    var sum := FeAdd(t0, c, 2, 1);
    var dif := FeSub(t0, c, 2, 1);
    BoundsNest(x);
    BoundsNest(y);
    r := if subtract then P1P1(x, y, dif, sum) else P1P1(x, y, sum, dif);
  }

  /** The cached form of the negative swaps two coordinates and negates the third. */
  lemma NegatedT(x: int, y: int, z: int, w: int, c: int)
    requires Eq(c, 2 * D * (x * y) * z * w)
    ensures Eq(-c, 2 * D * (-x * y) * z * w)
  {
    Scaled(c, 2 * D * (x * y) * z * w, -1, P);
    var u := 2 * D * (x * y) * z;
    assert 2 * D * (-x * y) == -(2 * D * (x * y)) by { assert -x * y == -(x * y); }
    assert -(2 * D * (x * y)) * z == -u;
    assert -u * w == u * w * -1;
  }

  /** ge_sub */
  method GeSub(p: P3, q: Cached, ghost x1: int, ghost y1: int, ghost x2: int, ghost y2: int, ghost x3: int, ghost y3: int)
    returns (r: P1P1)
    requires Is3(p, x1, y1) && IsCached(q, x2, y2) && AddsTo(x1, y1, -x2, y2, x3, y3)
    ensures Is1(r, x3, y3)
    ensures Field() && Regular(x1, y1, -x2, y2) && NonZero(FeVal(p.Z)) && NonZero(FeVal(q.Z)) ==> Proper(r)
  {
    hide FeVal, Bound, Eq, AddsTo, NonZero, Field, Regular;
    var s := FeAdd(p.Y, p.X, 1, 1);
    var d := FeSub(p.Y, p.X, 1, 1);
    var a := FMul(s, q.YminusX, 2, 2);
    var b := FMul(d, q.YplusX, 2, 2);
    var c := FMul(q.T2d, p.T, 1, 1);
    var z := FMul(p.Z, q.Z, 1, 1);
    var t0 := FeAdd(z, z, 1, 1);
    ghost var z1, z2 := FeVal(p.Z), FeVal(q.Z);
    assert Opened(z2, x2, 0);
    SumAndDifference(x1, y1, FeVal(p.X), FeVal(p.Y), z1);
    Multiplied(FeVal(a), FeVal(s), (y1 + x1) * z1, FeVal(q.YminusX), (y2 - x2) * z2);
    Multiplied(FeVal(b), FeVal(d), (y1 - x1) * z1, FeVal(q.YplusX), (y2 + x2) * z2);
    Multiplied(FeVal(c), FeVal(q.T2d), 2 * D * (x2 * y2) * z2, FeVal(p.T), x1 * y1 * z1);
    NegatedT(x2, y2, z2, x1 * y1 * z1, FeVal(c));
    assert y2 + -x2 == y2 - x2 && y2 - -x2 == y2 + x2;
    AdditionLaw(x1, y1, -x2, y2, x3, y3, z1, z2, FeVal(a), FeVal(b), -FeVal(c), FeVal(z));
    r := Assemble(a, b, t0, c, true);
  }

  /** ge_madd */
  method GeMadd(p: P3, q: Precomp, ghost x1: int, ghost y1: int, ghost x2: int, ghost y2: int, ghost x3: int, ghost y3: int)
    returns (r: P1P1)
    requires Is3(p, x1, y1) && IsPrecomp(q, x2, y2) && AddsTo(x1, y1, x2, y2, x3, y3)
    ensures Is1(r, x3, y3)
    ensures Field() && Regular(x1, y1, x2, y2) && NonZero(FeVal(p.Z)) ==> Proper(r)
  {
    hide FeVal, Bound, Eq, AddsTo, NonZero, Field, Regular;
    var s := FeAdd(p.Y, p.X, 1, 1);
    var d := FeSub(p.Y, p.X, 1, 1);
    BoundsNest(q.yplusx);
    BoundsNest(q.yminusx);
    var a := FMul(s, q.yplusx, 2, 1);
    var b := FMul(d, q.yminusx, 2, 1);
    var c := FMul(q.xy2d, p.T, 1, 1);
    var t0 := FeAdd(p.Z, p.Z, 1, 1);
    ghost var z1 := FeVal(p.Z);
    SumAndDifference(x1, y1, FeVal(p.X), FeVal(p.Y), z1);
    Multiplied(FeVal(a), FeVal(s), (y1 + x1) * z1, FeVal(q.yplusx), (y2 + x2) * 1);
    Multiplied(FeVal(b), FeVal(d), (y1 - x1) * z1, FeVal(q.yminusx), (y2 - x2) * 1);
    Multiplied(FeVal(c), FeVal(q.xy2d), 2 * D * (x2 * y2) * 1, FeVal(p.T), x1 * y1 * z1);
    SelfEq(z1);
    NonZeroTwo();
    AdditionLaw(x1, y1, x2, y2, x3, y3, z1, 1, FeVal(a), FeVal(b), FeVal(c), z1);
    r := Assemble(a, b, t0, c, false);
  }

  lemma SelfEq(z: int)
    ensures Eq(z, z) && Eq(z, z * 1)
  {
    Reflexive(z, P);
  }

  /** ge_msub */
  method GeMsub(p: P3, q: Precomp, ghost x1: int, ghost y1: int, ghost x2: int, ghost y2: int, ghost x3: int, ghost y3: int)
    returns (r: P1P1)
    requires Is3(p, x1, y1) && IsPrecomp(q, x2, y2) && AddsTo(x1, y1, -x2, y2, x3, y3)
    ensures Is1(r, x3, y3)
    ensures Field() && Regular(x1, y1, -x2, y2) && NonZero(FeVal(p.Z)) ==> Proper(r)
  {
    hide FeVal, Bound, Eq, AddsTo, NonZero, Field, Regular;
    var s := FeAdd(p.Y, p.X, 1, 1);
    var d := FeSub(p.Y, p.X, 1, 1);
    var a := FMul(s, q.yminusx, 2, 1);
    var b := FMul(d, q.yplusx, 2, 1);
    var c := FMul(q.xy2d, p.T, 1, 1);
    var t0 := FeAdd(p.Z, p.Z, 1, 1);
    ghost var z1 := FeVal(p.Z);
    SumAndDifference(x1, y1, FeVal(p.X), FeVal(p.Y), z1);
    Multiplied(FeVal(a), FeVal(s), (y1 + x1) * z1, FeVal(q.yminusx), (y2 - x2) * 1);
    Multiplied(FeVal(b), FeVal(d), (y1 - x1) * z1, FeVal(q.yplusx), (y2 + x2) * 1);
    Multiplied(FeVal(c), FeVal(q.xy2d), 2 * D * (x2 * y2) * 1, FeVal(p.T), x1 * y1 * z1);
    NegatedT(x2, y2, 1, x1 * y1 * z1, FeVal(c));
    SelfEq(z1);
    NonZeroTwo();
    assert y2 + -x2 == y2 - x2 && y2 - -x2 == y2 + x2;
    AdditionLaw(x1, y1, -x2, y2, x3, y3, z1, 1, FeVal(a), FeVal(b), -FeVal(c), z1);
    r := Assemble(a, b, t0, c, true);
  }

  /** ge_p2_dbl */
  method GeP2Dbl(p: P2, ghost x: int, ghost y: int, ghost x3: int, ghost y3: int) returns (r: P1P1)
    requires Is2(p, x, y) && OnCurve(x, y) && AddsTo(x, y, x, y, x3, y3)
    ensures Is1(r, x3, y3)
    ensures Field() && Regular(x, y, x, y) && NonZero(FeVal(p.Z)) ==> Proper(r)
  {
    hide FeVal, Bound, Eq, AddsTo, OnCurve, NonZero, Field, Regular;
    var xx := FSq(p.X, 1);
    var yy := FSq(p.Y, 1);
    var zz := FSq2(p.Z, 1);
    var s := FeAdd(p.X, p.Y, 1, 1);
    var t0 := FSq(s, 2);
    var ry := FeAdd(yy, xx, 1, 1);
    var rz := FeSub(yy, xx, 1, 1);
    var rx := FeSub(t0, ry, 1, 2);
    var rt := FeSub(zz, rz, 1, 2);
    BoundsNest(ry);
    BoundsNest(rz);
    ghost var z := FeVal(p.Z);
    SumAndDifference(x, y, FeVal(p.X), FeVal(p.Y), z);
    assert y + x == x + y;
    Multiplied(FeVal(xx), FeVal(p.X), x * z, FeVal(p.X), x * z);
    Multiplied(FeVal(yy), FeVal(p.Y), y * z, FeVal(p.Y), y * z);
    Multiplied(FeVal(t0), FeVal(s), (x + y) * z, FeVal(s), (x + y) * z);
    DoublingLaw(x, y, x3, y3, z, FeVal(xx), FeVal(yy), FeVal(zz), FeVal(t0));
    r := P1P1(rx, ry, rz, rt);
  }

  /** ge_p3_dbl, through ge_p3_to_p2 */
  method GeP3Dbl(p: P3, ghost x: int, ghost y: int, ghost x3: int, ghost y3: int) returns (r: P1P1)
    requires Is3(p, x, y) && OnCurve(x, y) && AddsTo(x, y, x, y, x3, y3)
    ensures Is1(r, x3, y3)
    ensures Field() && Regular(x, y, x, y) && NonZero(FeVal(p.Z)) ==> Proper(r)
  {
    hide FeVal, Bound, Eq, AddsTo, OnCurve, NonZero, Field, Regular;
    r := GeP2Dbl(P2(p.X, p.Y, p.Z), x, y, x3, y3);
  }

  /** ge_p1p1_to_p3 */
  method GeToP3(p: P1P1, ghost x: int, ghost y: int) returns (r: P3)
    requires Is1(p, x, y)
    ensures Is3(r, x, y)
    ensures Field() && Proper(p) ==> NonZero(FeVal(r.Z))
  {
    hide FeVal, Bound, Eq;
    var X := FMul(p.X, p.T, 3, 3);
    var Y := FMul(p.Y, p.Z, 3, 3);
    var Z := FMul(p.Z, p.T, 3, 3);
    var T := FMul(p.X, p.Y, 3, 3);
    r := P3(X, Y, Z, T);
    ghost var cz, ct := FeVal(p.Z), FeVal(p.T);
    CompletedLaw(x, y, FeVal(p.X), FeVal(p.Y), cz, ct);
    Converted(FeVal(X), FeVal(p.X) * ct, x, FeVal(Z), cz * ct);
    Converted(FeVal(Y), FeVal(p.Y) * cz, y, FeVal(Z), cz * ct);
    Converted(FeVal(T), FeVal(p.X) * FeVal(p.Y), x * y, FeVal(Z), cz * ct);
    StaysProper(FeVal(Z), cz, ct);
  }

  lemma Converted(v: int, w: int, x: int, z: int, zz: int)
    requires Eq(v, w) && Eq(w, x * zz) && Eq(z, zz)
    ensures Eq(v, x * z)
  {
    Chain(v, w, x * zz);
    Symmetric(z, zz, P);
    Scaled(zz, z, x, P);
    assert zz * x == x * zz && z * x == x * z;
    Chain(v, x * zz, x * z);
  }

  lemma StaysProper(v: int, z: int, t: int)
    requires Eq(v, z * t)
    ensures Field() && NonZero(z) && NonZero(t) ==> NonZero(v)
  {
    hide Eq;
    if Field() && NonZero(z) && NonZero(t) {
      NonZeroProduct(z, t);
      NonZeroSame(v, z * t);
    }
  }

  /** ge_p1p1_to_p2 */
  method GeToP2(p: P1P1, ghost x: int, ghost y: int) returns (r: P2)
    requires Is1(p, x, y)
    ensures Is2(r, x, y)
    ensures Field() && Proper(p) ==> NonZero(FeVal(r.Z))
  {
    hide FeVal, Bound, Eq;
    var X := FMul(p.X, p.T, 3, 3);
    var Y := FMul(p.Y, p.Z, 3, 3);
    var Z := FMul(p.Z, p.T, 3, 3);
    r := P2(X, Y, Z);
    ghost var cz, ct := FeVal(p.Z), FeVal(p.T);
    CompletedLaw(x, y, FeVal(p.X), FeVal(p.Y), cz, ct);
    Converted(FeVal(X), FeVal(p.X) * ct, x, FeVal(Z), cz * ct);
    Converted(FeVal(Y), FeVal(p.Y) * cz, y, FeVal(Z), cz * ct);
    StaysProper(FeVal(Z), cz, ct);
  }
}
