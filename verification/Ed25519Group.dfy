/**
 The points of the curve as a group, and the point operations of
 ed25519/src/ge.c as operations of that group.
 */
module Ed25519Group {
  import opened Arith
  import opened Congruence
  import opened Groups
  import opened Ed25519Field
  import opened Ed25519Curve
  import opened Ed25519Points
  import opened Ed25519Codec

  datatype Point = Point(x: int, y: int)

  /** A point of the curve, with coordinates in [0, p). */
  ghost predicate Canonical(p: Point) { 0 <= p.x < P && 0 <= p.y < P && OnCurve(p.x, p.y) }

  /** The point (0, 1). */
  ghost function NeutralPoint(): (p: Point)
    ensures Canonical(p)
  {
    Reflexive(1, P);
    Point(0, 1)
  }

  type CurvePoint = p: Point | Canonical(p) ghost witness NeutralPoint()

  lemma PointOnCurve(a: CurvePoint)
    ensures OnCurve(a.x, a.y)
  {
  }

  ghost predicate NegLaw(g: Group<CurvePoint>, a: CurvePoint) { Eq(Neg(g, a).x, -a.x) && Neg(g, a).y == a.y }

  ghost predicate SumLaw(g: Group<CurvePoint>, a: CurvePoint, b: CurvePoint) {
    AddsTo(a.x, a.y, b.x, b.y, Plus(g, a, b).x, Plus(g, a, b).y) && Regular(a.x, a.y, b.x, b.y)
  }

  /** What is used of the curve: its points are a group under the addition law,
      whose denominators do not vanish, over a field. */
  ghost predicate Laws(g: Group<CurvePoint>) {
    && Abelian(g) && Field() && g.zero == Point(0, 1)
    && (forall a: CurvePoint :: NegLaw(g, a))
    && (forall a: CurvePoint, b: CurvePoint :: SumLaw(g, a, b))
  }

  ghost predicate Rep3(p: P3, a: CurvePoint) { Is3(p, a.x, a.y) && NonZero(FeVal(p.Z)) }

  ghost predicate Rep2(p: P2, a: CurvePoint) { Is2(p, a.x, a.y) && NonZero(FeVal(p.Z)) }

  ghost predicate Rep1(p: P1P1, a: CurvePoint) { Is1(p, a.x, a.y) && Proper(p) }

  ghost predicate RepCached(p: Cached, a: CurvePoint) { IsCached(p, a.x, a.y) && NonZero(FeVal(p.Z)) }

  ghost predicate RepPrecomp(p: Precomp, a: CurvePoint) { IsPrecomp(p, a.x, a.y) }

  //// Using the laws

  lemma Sum(g: Group<CurvePoint>, a: CurvePoint, b: CurvePoint)
    requires Laws(g)
    ensures AddsTo(a.x, a.y, b.x, b.y, Plus(g, a, b).x, Plus(g, a, b).y)
    ensures Regular(a.x, a.y, b.x, b.y) && Field() && OnCurve(a.x, a.y)
  {
    hide Eq, Field, Abelian;
    assert SumLaw(g, a, b);
    PointOnCurve(a);
  }

  lemma Basics(g: Group<CurvePoint>, b: CurvePoint)
    requires Laws(g)
    ensures Abelian(g) && Field() && g.zero == Point(0, 1)
    ensures Eq(Neg(g, b).x, -b.x) && Neg(g, b).y == b.y && OnCurve(b.x, b.y) && Eq(b.y, b.y)
  {
    hide Field, Abelian;
    assert NegLaw(g, b);
    PointOnCurve(b);
    Reflexive(b.y, P);
  }

  /** The addition law respects congruence of the second point. */
  lemma SameSum(x1: int, y1: int, x2: int, y2: int, u: int, v: int, x3: int, y3: int)
    requires AddsTo(x1, y1, x2, y2, x3, y3) && Regular(x1, y1, x2, y2) && Eq(x2, u) && Eq(y2, v)
    ensures AddsTo(x1, y1, u, v, x3, y3) && Regular(x1, y1, u, v)
  {
    var s, t := D * Cross(x1, y1, x2, y2), D * Cross(x1, y1, u, v);
    SameCross(x1, y1, x2, y2, u, v);
    hide Congruent, Cross, Eq;
    SameDenominators(s, t);
    SameNumerator(x1, y2, v, y1, x2, u);
    SameNumerator(y1, y2, v, x1, x2, u);
    SameQuotient(x3, 1 + s, 1 + t, x1 * y2 + x2 * y1, x1 * v + u * y1) by {
      assert y1 * x2 == x2 * y1 && y1 * u == u * y1;
    }
    SameQuotient(y3, 1 - s, 1 - t, y1 * y2 + x1 * x2, y1 * v + x1 * u);
    NonZeroSame(1 + t, 1 + s);
    NonZeroSame(1 - t, 1 - s);
  }

  lemma SameDenominators(s: int, t: int)
    requires Eq(s, t)
    ensures Eq(1 + s, 1 + t) && Eq(1 - s, 1 - t) && Eq(1 + t, 1 + s) && Eq(1 - t, 1 - s)
  {
    Reflexive(1, P);
    Congruence.Sum(1, 1, s, t, P);
    Minus(1, 1, s, t);
    Symmetric(1 + s, 1 + t, P);
    Symmetric(1 - s, 1 - t, P);
  }

  lemma SameNumerator(a: int, b: int, b': int, c: int, d: int, d': int)
    requires Eq(b, b') && Eq(d, d')
    ensures Eq(a * b + c * d, a * b' + c * d')
  {
    Scaled(b, b', a, P);
    Scaled(d, d', c, P);
    assert b * a == a * b && b' * a == a * b' && d * c == c * d && d' * c == c * d';
    Congruence.Sum(a * b, a * b', c * d, c * d', P);
  }

  lemma SameCross(x1: int, y1: int, x2: int, y2: int, u: int, v: int)
    requires Eq(x2, u) && Eq(y2, v)
    ensures Eq(D * Cross(x1, y1, x2, y2), D * Cross(x1, y1, u, v))
  {
    hide Congruent;
    Scaled(x2, u, x1, P);
    Scaled(y2, v, y1, P);
    Product(x2 * x1, u * x1, y2 * y1, v * y1, P);
    Scaled(x2 * x1 * (y2 * y1), u * x1 * (v * y1), D, P);
    assert x2 * x1 == x1 * x2 && u * x1 == x1 * u && y2 * y1 == y1 * y2 && v * y1 == y1 * v;
  }

  lemma SameQuotient(q: int, d: int, e: int, n: int, m: int)
    requires Eq(q * d, n) && Eq(d, e) && Eq(n, m)
    ensures Eq(q * e, m)
  {
    Symmetric(d, e, P);
    Scaled(e, d, q, P);
    assert e * q == q * e && d * q == q * d;
    Chain(q * e, q * d, n);
    Chain(q * e, n, m);
  }

  //// Operations

  method Add(p: P3, q: Cached, ghost g: Group<CurvePoint>, ghost a: CurvePoint, ghost b: CurvePoint) returns (r: P1P1)
    requires Laws(g) && Rep3(p, a) && RepCached(q, b)
    ensures Rep1(r, Plus(g, a, b))
  {
    hide Laws, Canonical, Abelian, Plus, Neg, Is3, IsCached, Is1, Proper, AddsTo, Regular, Field, NonZero;
    Sum(g, a, b);
    r := GeAdd(p, q, a.x, a.y, b.x, b.y, Plus(g, a, b).x, Plus(g, a, b).y);
  }

  method Subtract(p: P3, q: Cached, ghost g: Group<CurvePoint>, ghost a: CurvePoint, ghost b: CurvePoint) returns (r: P1P1)
    requires Laws(g) && Rep3(p, a) && RepCached(q, b)
    ensures Rep1(r, Plus(g, a, Neg(g, b)))
  {
    hide Laws, Canonical, Abelian, Plus, Neg, Is3, IsCached, Is1, Proper, AddsTo, Regular, Field, NonZero, Eq;
    ghost var s := Plus(g, a, Neg(g, b));
    Sum(g, a, Neg(g, b));
    Basics(g, b);
    SameSum(a.x, a.y, Neg(g, b).x, Neg(g, b).y, -b.x, b.y, s.x, s.y);
    r := GeSub(p, q, a.x, a.y, b.x, b.y, s.x, s.y);
  }

  method AddPrecomp(p: P3, q: Precomp, ghost g: Group<CurvePoint>, ghost a: CurvePoint, ghost b: CurvePoint) returns (r: P1P1)
    requires Laws(g) && Rep3(p, a) && RepPrecomp(q, b)
    ensures Rep1(r, Plus(g, a, b))
  {
    hide Laws, Canonical, Abelian, Plus, Neg, Is3, IsPrecomp, Is1, Proper, AddsTo, Regular, Field, NonZero;
    Sum(g, a, b);
    r := GeMadd(p, q, a.x, a.y, b.x, b.y, Plus(g, a, b).x, Plus(g, a, b).y);
  }

  method SubtractPrecomp(p: P3, q: Precomp, ghost g: Group<CurvePoint>, ghost a: CurvePoint, ghost b: CurvePoint) returns (r: P1P1)
    requires Laws(g) && Rep3(p, a) && RepPrecomp(q, b)
    ensures Rep1(r, Plus(g, a, Neg(g, b)))
  {
    hide Laws, Canonical, Abelian, Plus, Neg, Is3, IsPrecomp, Is1, Proper, AddsTo, Regular, Field, NonZero, Eq;
    ghost var s := Plus(g, a, Neg(g, b));
    Sum(g, a, Neg(g, b));
    Basics(g, b);
    SameSum(a.x, a.y, Neg(g, b).x, Neg(g, b).y, -b.x, b.y, s.x, s.y);
    r := GeMsub(p, q, a.x, a.y, b.x, b.y, s.x, s.y);
  }

  method Double(p: P2, ghost g: Group<CurvePoint>, ghost a: CurvePoint) returns (r: P1P1)
    requires Laws(g) && Rep2(p, a)
    ensures Rep1(r, Plus(g, a, a))
  {
    hide Laws, Canonical, Abelian, Plus, Neg, Is2, Is1, Proper, AddsTo, Regular, Field, NonZero, OnCurve;
    Sum(g, a, a);
    r := GeP2Dbl(p, a.x, a.y, Plus(g, a, a).x, Plus(g, a, a).y);
  }

  method Double3(p: P3, ghost g: Group<CurvePoint>, ghost a: CurvePoint) returns (r: P1P1)
    requires Laws(g) && Rep3(p, a)
    ensures Rep1(r, Plus(g, a, a))
  {
    hide Laws, Canonical, Abelian, Plus, Neg, Is3, Is1, Proper, AddsTo, Regular, Field, NonZero, OnCurve;
    Sum(g, a, a);
    r := GeP3Dbl(p, a.x, a.y, Plus(g, a, a).x, Plus(g, a, a).y);
  }

  method ToP3(p: P1P1, ghost g: Group<CurvePoint>, ghost a: CurvePoint) returns (r: P3)
    requires Laws(g) && Rep1(p, a)
    ensures Rep3(r, a)
  {
    hide Laws, Canonical, Abelian, Plus, Neg, Is3, Is1, Proper, Field, NonZero, OnCurve;
    Basics(g, a);
    r := GeToP3(p, a.x, a.y);
  }

  method ToP2(p: P1P1, ghost g: Group<CurvePoint>, ghost a: CurvePoint) returns (r: P2)
    requires Laws(g) && Rep1(p, a)
    ensures Rep2(r, a)
  {
    hide Laws, Canonical, Abelian, Plus, Neg, Is2, Is1, Proper, Field, NonZero, OnCurve;
    Basics(g, a);
    r := GeToP2(p, a.x, a.y);
  }

  method ToCached(p: P3, ghost g: Group<CurvePoint>, ghost a: CurvePoint) returns (r: Cached)
    requires Laws(g) && Rep3(p, a)
    ensures RepCached(r, a)
  {
    hide Laws, Canonical, Abelian, Plus, Neg, Is3, IsCached, NonZero;
    r := GeToCached(p, a.x, a.y);
  }

  method Neutral(ghost g: Group<CurvePoint>) returns (r: P2)
    requires Laws(g)
    ensures Rep2(r, g.zero)
  {
    hide Laws, Canonical, Abelian, Is2, Eq, Field, OnCurve;
    Basics(g, g.zero);
    NonZeroTwo();
    SelfEq(0);
    SelfEq(1);
    r := GeP2Zero(g.zero.x, g.zero.y);
  }

  method Neutral3(ghost g: Group<CurvePoint>) returns (r: P3)
    requires Laws(g)
    ensures Rep3(r, g.zero)
  {
    hide Laws, Canonical, Abelian, Is3, Eq, Field, OnCurve;
    Basics(g, g.zero);
    NonZeroTwo();
    SelfEq(0);
    SelfEq(1);
    r := GeP3Zero(g.zero.x, g.zero.y);
  }
}
