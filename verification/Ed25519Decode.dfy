/** ge_frombytes_negate_vartime of ed25519/src/ge.c. */
module Ed25519Decode {
  import opened Arith
  import opened Bytes
  import opened Congruence
  import opened Ints
  import opened Powers
  import opened Ed25519Field
  import opened Ed25519Carry
  import opened Ed25519FieldMul
  import opened Ed25519FieldOps
  import opened Ed25519Curve
  import opened Ed25519Points
  import opened Ed25519FromBytes
  import opened Ed25519ToBytes
  import opened Ed25519FieldBytes
  import opened Ed25519Invert
  import opened Ed25519Codec
  import opened Ed25519Sqrt

  /** fe_pow22523 on values. */
  method Pow22523(f: Fe) returns (r: Fe)
    requires Bound(f, 1)
    ensures Bound(r, 1) && Eq(FeVal(r), Power(FeVal(f), (P - 5) / 8))
  {
    BoundsNest(f);
    hide FeVal, Bound, Congruent, Power, Loose, Tight;
    var z, out := new int32[10], new int32[10];
    FeCopy(z, f);
    FePow22523(out, z);
    r := out[..];
    BoundsNest(r);
  }

  /** u = y^2 - 1 and v = d y^2 + 1. */
  method CurveTerms(Y: Fe) returns (u: Fe, v: Fe, ghost yy: Fe)
    requires Bound(Y, 1)
    ensures Bound(yy, 1) && Bound(u, 2) && Bound(v, 2)
    ensures forall k :: 0 <= k < 10 ==> u[k] as int == yy[k] as int - FE_ONE[k] as int
    ensures var y := FeVal(Y); Eq(FeVal(u), y * y - 1) && Eq(FeVal(v), D * (y * y) + 1)
  {
    One();
    CurveConstants();
    ConstantBounds();
    hide FeVal, Bound, Congruent;
    var t := FSq(Y, 1);
    yy := t;
    var w := FMul(t, FE_D, 1, 1);
    u := FeSub(t, FE_ONE, 1, 1);
    v := FeAdd(w, FE_ONE, 1, 1);
    ghost var y := FeVal(Y);
    Reflexive(1, P);
    Minus(FeVal(t), y * y, 1, 1);
    Multiplied(FeVal(w), FeVal(t), y * y, FeVal(FE_D), D);
    Sum(FeVal(w), y * y * D, 1, 1, P);
  }

  /** The candidate root u v^3 (u v^7)^((p - 5) / 8). */
  method Candidate(u: Fe, v: Fe) returns (x: Fe)
    requires Bound(u, 2) && Bound(v, 2)
    ensures Bound(x, 1) && Eq(FeVal(x), Beta(FeVal(u), FeVal(v)))
  {
    ghost var a, b := FeVal(u), FeVal(v);
    hide FeVal, Bound, Congruent, Power;
    Reflexive(a, P);
    Reflexive(b, P);
    var v2 := FSq(v, 2);
    var v3 := FMul(v2, v, 1, 2);
    Multiplied(FeVal(v3), FeVal(v2), b * b, b, b);
    var c := FSq(v3, 1);
    Multiplied(FeVal(c), FeVal(v3), b * b * b, FeVal(v3), b * b * b);
    var d := FMul(c, v, 1, 2);
    Multiplied(FeVal(d), FeVal(c), b * b * b * (b * b * b), b, b);
    var w := FMul(d, u, 1, 2);
    Multiplied(FeVal(w), FeVal(d), b * b * b * (b * b * b) * b, a, a);
    var q := Pow22523(w);
    PowerSame(FeVal(w), Seventh(a, b), (P - 5) / 8);
    Chain(FeVal(q), Power(FeVal(w), (P - 5) / 8), Power(Seventh(a, b), (P - 5) / 8));
    var t := FMul(q, v3, 1, 1);
    Multiplied(FeVal(t), FeVal(q), Power(Seventh(a, b), (P - 5) / 8), FeVal(v3), b * b * b);
    x := FMul(t, u, 1, 2);
    Multiplied(FeVal(x), FeVal(t), Power(Seventh(a, b), (P - 5) / 8) * (b * b * b), a, a);
  }

  /** vxx - u and vxx + u stay within the bound of fe_tobytes, because Z is 1. */
  lemma DifferenceMedium(a: Fe, u: Fe, yy: Fe, check: Fe)
    requires Bound(a, 1) && Bound(yy, 1)
    requires forall k :: 0 <= k < 10 ==> u[k] as int == yy[k] as int - FE_ONE[k] as int
    requires forall k :: 0 <= k < 10 ==> Abs(check[k] as int - a[k] as int, AbsOf(u[k] as int))
    ensures Medium(check)
  {
    forall k | 0 <= k < 10
      ensures Abs(check[k] as int, if k % 2 == 0 then 73819750 else 36909875)
    {
      assert 0 <= FE_ONE[k] as int <= 1;
      assert Abs(a[k] as int, if k % 2 == 0 then 33889976 else 16944988);
      assert Abs(yy[k] as int, if k % 2 == 0 then 33889976 else 16944988);
    }
  }

  ghost function AbsOf(x: int): int { if x < 0 then -x else x }

  /** A difference that is zero mod p. */
  lemma Vanishes(a: int, u: int)
    requires (a - u) % P == 0
    ensures Eq(a, u)
  {
    var k := (a - u) / P;
    assert a - u == k * P;
    Differ(a, u, k, P);
  }

  lemma FirstRoot(u: int, v: int, x: int, xx: int, vxx: int)
    requires Eq(xx, x * x) && Eq(vxx, xx * v) && Eq(vxx, u)
    ensures Eq(v * (x * x), u)
  {
    hide Congruent;
    Reflexive(v, P);
    Multiplied(vxx, xx, x * x, v, v);
    Symmetric(vxx, x * x * v, P);
    assert x * x * v == v * (x * x);
    Chain(v * (x * x), vxx, u);
  }

  lemma SecondRoot(u: int, v: int, x: int, xx: int, vxx: int, i: int, y: int)
    requires Eq(xx, x * x) && Eq(vxx, xx * v) && Eq(vxx, -u) && Eq(i * i, -1) && Eq(y, x * i)
    ensures Eq(v * (y * y), u)
  {
    FirstRoot(-u, v, x, xx, vxx);
    hide Congruent;
    var w := v * (x * x);
    Congruence.Product(y, x * i, y, x * i, P);
    Pair(x, i, x, i);
    Scaled(y * y, x * x * (i * i), v, P);
    Scaled(i * i, -1, w, P);
    assert y * y * v == v * (y * y);
    assert x * x * (i * i) * v == i * i * w;
    Chain(v * (y * y), i * i * w, -1 * w);
    Scaled(w, -u, -1, P);
    assert w * -1 == -1 * w && -u * -1 == u;
    Chain(v * (y * y), -1 * w, u);
  }

  lemma NotVanishing(a: int, u: int)
    requires Eq(a, u)
    ensures (a - u) % P == 0
  {
    var k := Difference(a, u, P);
    DivUnique(a - u, P, k, 0);
  }

  /** v beta^2 as it is computed. */
  lemma BetaChecked(u: int, v: int, x: int, xx: int, vxx: int, t: int)
    requires Eq(x, Beta(u, v)) && Eq(xx, x * x) && Eq(vxx, xx * v) && Eq(v * (Beta(u, v) * Beta(u, v)), t)
    ensures (vxx - t) % P == 0
  {
    hide Congruent, Beta;
    var b := Beta(u, v);
    Multiplied(xx, x, b, x, b);
    Reflexive(v, P);
    Multiplied(vxx, xx, b * b, v, v);
    assert b * b * v == v * (b * b);
    Chain(vxx, v * (b * b), t);
    NotVanishing(vxx, t);
  }

  /** Selects the root; fails when the candidate solves neither equation. */
  method Root(u: Fe, v: Fe, ghost yy: Fe) returns (ok: bool, x: Fe)
    requires Bound(yy, 1) && Bound(u, 2) && Bound(v, 2)
    requires forall k :: 0 <= k < 10 ==> u[k] as int == yy[k] as int - FE_ONE[k] as int
    ensures Bound(x, 1) && (ok ==> Eq(FeVal(v) * (FeVal(x) * FeVal(x)), FeVal(u)))
    ensures var s := FeVal(v) * (Beta(FeVal(u), FeVal(v)) * Beta(FeVal(u), FeVal(v)));
            Eq(s, FeVal(u)) || Eq(s, -FeVal(u)) ==> ok
  {
    ghost var a, b := FeVal(u), FeVal(v);
    ghost var s := b * (Beta(a, b) * Beta(a, b));
    hide FeVal, Bound, Congruent, Beta;
    x := Candidate(u, v);
    var xx := FSq(x, 1);
    var vxx := FMul(xx, v, 1, 2);
    var check := FeSub(vxx, u, 1, 2);
    DifferenceMedium(vxx, u, yy, check);
    ok := true;
    var nonzero := FeIsNonzero(check);
    if nonzero {
      if Eq(s, a) { BetaChecked(a, b, FeVal(x), FeVal(xx), FeVal(vxx), a); }
      check := FeAdd(vxx, u, 1, 2);
      DifferenceMedium(vxx, u, yy, check);
      nonzero := FeIsNonzero(check);
      if nonzero {
        if Eq(s, -a) { BetaChecked(a, b, FeVal(x), FeVal(xx), FeVal(vxx), -a); }
        ok := false;
      } else {
        Vanishes(FeVal(vxx), -a);
        x := Twist(x, u, v, xx, vxx);
      }
    } else {
      Vanishes(FeVal(vxx), a);
      FirstRoot(a, b, FeVal(x), FeVal(xx), FeVal(vxx));
    }
  }

  method Twist(x: Fe, ghost u: Fe, ghost v: Fe, ghost xx: Fe, ghost vxx: Fe) returns (y: Fe)
    requires Bound(x, 1) && Eq(FeVal(xx), FeVal(x) * FeVal(x)) && Eq(FeVal(vxx), FeVal(xx) * FeVal(v))
    requires Eq(FeVal(vxx), -FeVal(u))
    ensures Bound(y, 1) && Eq(FeVal(v) * (FeVal(y) * FeVal(y)), FeVal(u))
  {
    hide FeVal, Bound, Congruent;
    RootOfMinusOne();
    ConstantBounds();
    y := FMul(x, FE_SQRTM1, 1, 1);
    SecondRoot(FeVal(u), FeVal(v), FeVal(x), FeVal(xx), FeVal(vxx), FeVal(FE_SQRTM1), FeVal(y));
  }

  /** v x^2 = u is the curve equation. */
  lemma RootOnCurve(x: int, y: int, u: int, v: int)
    requires Eq(u, y * y - 1) && Eq(v, D * (y * y) + 1) && Eq(v * (x * x), u)
    ensures OnCurve(x, y)
  {
    hide Congruent;
    var q, p := y * y, x * x;
    Scaled(v, D * q + 1, p, P);
    Symmetric(v * p, (D * q + 1) * p, P);
    Chain((D * q + 1) * p, v * p, u);
    Chain((D * q + 1) * p, u, q - 1);
    // q - 1 = D q p + p, so q - p = 1 + D p q
    assert (D * q + 1) * p == D * (p * q) + p by { MulAssoc(D, q, p); assert q * p == p * q; }
    Symmetric(D * (p * q) + p, q - 1, P);
    Reflexive(1 - p, P);
    Sum(q - 1, D * (p * q) + p, 1 - p, 1 - p, P);
  }

  /** On the curve u / v is the square of x, and v is not zero. */
  lemma Decodable(x: int, y: int, w: int, u: int, v: int)
    requires Field() && OnCurve(x, y) && Eq(w, y) && Eq(u, w * w - 1) && Eq(v, D * (w * w) + 1)
    ensures Eq(u, v * (x * x)) && NonZero(v)
  {
    CurveEquation(x, y);
    hide Congruent, Field;
    var q, p := y * y, x * x;
    Congruence.Product(w, y, w, y, P);
    Reflexive(1, P);
    Minus(w * w, q, 1, 1);
    Chain(u, w * w - 1, q - 1);
    Scaled(w * w, q, D, P);
    Sum(w * w * D, q * D, 1, 1, P);
    Chain(v, D * (w * w) + 1, D * q + 1) by { assert w * w * D == D * (w * w) && q * D == D * q; }
    CurveQuotient(p, q);
    Scaled(v, D * q + 1, p, P);
    Symmetric(v * p, (D * q + 1) * p, P);
    Chain(q - 1, (D * q + 1) * p, v * p);
    Chain(u, q - 1, v * p);
    DenominatorNonZero(p, q, v);
  }

  lemma CurveQuotient(p: int, q: int)
    requires Eq(q - p, 1 + D * (p * q))
    ensures Eq(q - 1, (D * q + 1) * p)
  {
    Reflexive(p - 1, P);
    Sum(q - p, 1 + D * (p * q), p - 1, p - 1, P);
    assert (D * q + 1) * p == D * (p * q) + p by { MulAssoc(D, q, p); assert q * p == p * q; }
  }

  /** If D y^2 + 1 vanished then y^2 = 1, but D + 1 does not vanish. */
  lemma DenominatorNonZero(p: int, q: int, v: int)
    requires Eq(v, D * q + 1) && Eq(q - 1, (D * q + 1) * p)
    ensures NonZero(v)
  {
    hide Congruent;
    if Eq(v, 0) {
      Symmetric(v, D * q + 1, P);
      Chain(D * q + 1, v, 0);
      Scaled(D * q + 1, 0, p, P);
      Chain(q - 1, (D * q + 1) * p, 0 * p);
      Reflexive(1, P);
      Sum(q - 1, 0, 1, 1, P);
      Scaled(q, 1, D, P);
      Sum(q * D, 1 * D, 1, 1, P);
      Symmetric(D * q + 1, D + 1, P);
      Chain(D + 1, D * q + 1, 0);
      Symmetric(D + 1, 0, P);
      Residue(0, D + 1, P);
    }
  }

  /** What an encoding says about its bits. */
  lemma EncodedBits(s: seq<byte>, x: int, y: int)
    requires |s| == 32 && 0 <= x < P && 0 <= y < P && LoadLE(s) == Encoding(x, y)
    ensures Bits(LoadLE(s), 0, 255) == y && (s[31] >= 128 <==> x % 2 == 1)
  {
    hide LoadLE, Bits;
    TopBit(s, |s| - 1);
    Low255(LoadLE(s), 8 * (|s| - 1) + 7);
  }

  lemma Low255(n: nat, k: nat)
    requires k == 255
    ensures Bits(n, 0, k) < 0x8000000000000000000000000000000000000000000000000000000000000000
  {
    BitsBelow(n, 0, k);
    Pow2Of256(32);
    Pow2Add(k, 1);
    assert Pow2(1) == 2;
    hide Pow2, Bits;
  }

  /** The parity of the encoding selects the negative root. */
  lemma SignSelects(r: int, x: int, v: int, u: int, low: bool)
    requires Field() && NonZero(v) && Eq(v * (r * r), u) && Eq(v * (x * x), u) && 0 <= x < P
    requires r % P != 0 ==> (r % P % 2 == 1 <==> low)
    requires low <==> x % 2 == 0
    ensures Eq(r, -x)
  {
    hide Field, Congruent;
    TwoRoots(v, r, x, u);
    if Eq(r, x) {
      SameResidue(r, x, P);
      assert x % P == x by { DivUnique(x, P, 0, x); }
    }
  }

  /** The curve equation respects congruence. */
  lemma SameCurve(x: int, y: int, u: int, v: int)
    requires OnCurve(x, y) && Eq(u, x) && Eq(v, y)
    ensures OnCurve(u, v)
  {
    CurveEquation(x, y);
    hide Congruent;
    var p, q, r, s := x * x, y * y, u * u, v * v;
    Congruence.Product(u, x, u, x, P);
    Congruence.Product(v, y, v, y, P);
    Minus(s, q, r, p);
    Congruence.Product(r, p, s, q, P);
    Scaled(r * s, p * q, D, P);
    Reflexive(1, P);
    Congruence.Sum(1, 1, r * s * D, p * q * D, P);
    Symmetric(1 + r * s * D, 1 + p * q * D, P);
    assert r * s * D == D * (r * s) && p * q * D == D * (p * q);
    Chain(s - r, q - p, 1 + D * (p * q));
    Chain(s - r, 1 + D * (p * q), 1 + D * (r * s));
  }

  /** Some point of the curve has the low 255 bits of s as its y, which may be p or more. */
  ghost predicate HasPoint(s: seq<byte>) {
    exists x :: OnCurve(x, Bits(LoadLE(s), 0, 255))
  }

  /** The y of a string is that of a point, so the candidate is a root. */
  lemma Reachable(s: seq<byte>, y: int, u: int, v: int)
    requires Field() && HasPoint(s) && Eq(y, Bits(LoadLE(s), 0, 255)) && Eq(u, y * y - 1) && Eq(v, D * (y * y) + 1)
    ensures Eq(v * (Beta(u, v) * Beta(u, v)), u) || Eq(v * (Beta(u, v) * Beta(u, v)), -u)
  {
    hide Congruent, OnCurve, Bits, LoadLE, Field, Beta;
    var x :| OnCurve(x, Bits(LoadLE(s), 0, 255));
    Decodable(x, Bits(LoadLE(s), 0, 255), y, u, v);
    BetaWorks(u, v, x);
  }

  /** ge_frombytes_negate_vartime: minus the point that s encodes.  It succeeds exactly on
      the strings whose y is that of a point, and only with points of the curve. */
  method GeFromBytesNegate(s: seq<byte>, ghost x0: int, ghost y0: int) returns (ok: bool, h: P3)
    requires |s| == 32
    ensures ok ==> Is3(h, FeVal(h.X), FeVal(h.Y)) && OnCurve(FeVal(h.X), FeVal(h.Y))
    ensures ok ==> FeVal(h.Y) % P == Bits(LoadLE(s), 0, 255) % P && FeVal(h.Z) == 1
    ensures ok && FeVal(h.X) % P != 0 ==> (FeVal(h.X) % P % 2 == 1 <==> s[31] < 128)
    ensures Field() ==> (ok <==> HasPoint(s))
    ensures Field() && OnCurve(x0, y0) && 0 <= x0 < P && 0 <= y0 < P && LoadLE(s) == Encoding(x0, y0)
            ==> ok && Eq(FeVal(h.X), -x0) && Eq(FeVal(h.Y), y0)
  {
    hide FeVal, Bound, Congruent, OnCurve, Bits, LoadLE, Field, Beta, Encoding;
    var Y := FeFromBytes(s);
    SameResidue(FeVal(Y), Bits(LoadLE(s), 0, 255), P);
    BoundsNest(Y);
    var u, v, yy := CurveTerms(Y);
    ghost var encoded := Field() && OnCurve(x0, y0) && 0 <= x0 < P && 0 <= y0 < P && LoadLE(s) == Encoding(x0, y0);
    if encoded {
      EncodedBits(s, x0, y0);
      Decodable(x0, y0, FeVal(Y), FeVal(u), FeVal(v));
      assert OnCurve(x0, Bits(LoadLE(s), 0, 255));
    }
    if Field() && HasPoint(s) { Reachable(s, FeVal(Y), FeVal(u), FeVal(v)); }
    var x;
    ok, x := Root(u, v, yy);
    if !ok {
      h := P3(x, Y, FE_ONE, x);
      return;
    }
    h := Orient(s, x, Y, FeVal(u), FeVal(v));
    Reflexive(FeVal(h.X), P);
    Symmetric(FeVal(Y), Bits(LoadLE(s), 0, 255), P);
    SameCurve(FeVal(h.X), FeVal(Y), FeVal(h.X), Bits(LoadLE(s), 0, 255));
    if encoded {
      Symmetric(FeVal(u), FeVal(v) * (x0 * x0), P);
      SignSelects(FeVal(h.X), x0, FeVal(v), FeVal(u), s[31] < 128);
    }
  }

  /** Chooses the sign of x and completes the point. */
  method Orient(s: seq<byte>, x0: Fe, Y: Fe, ghost u: int, ghost v: int) returns (h: P3)
    requires |s| == 32 && Bound(x0, 1) && Bound(Y, 1)
    requires var y := FeVal(Y);
             Eq(u, y * y - 1) && Eq(v, D * (y * y) + 1) && Eq(v * (FeVal(x0) * FeVal(x0)), u)
    ensures Is3(h, FeVal(h.X), FeVal(h.Y)) && OnCurve(FeVal(h.X), FeVal(h.Y)) && h.Y == Y && FeVal(h.Z) == 1
    ensures FeVal(h.X) % P != 0 ==> (FeVal(h.X) % P % 2 == 1 <==> s[31] < 128)
    ensures Eq(v * (FeVal(h.X) * FeVal(h.X)), u)
  {
    hide FeVal, Bound, Eq, OnCurve;
    var x := x0;
    TightMedium(x);
    var odd := FeIsNegative(x);
    if odd == (s[31] >= 128) {
      var n := FeNeg(x, 1);
      NegateParity(FeVal(x));
      assert -FeVal(x) * -FeVal(x) == FeVal(x) * FeVal(x);
      x := n;
    }
    RootOnCurve(FeVal(x), FeVal(Y), u, v);
    var t := FMul(x, Y, 1, 1);
    One();
    ConstantBounds();
    h := P3(x, Y, FE_ONE, t);
    SelfEq(FeVal(x));
    SelfEq(FeVal(Y));
  }

  /** p is odd, so negation flips the parity of a nonzero residue. */
  lemma NegateParity(x: int)
    ensures -x % P == if x % P == 0 then 0 else P - x % P
  {
    var q, r := x / P, x % P;
    assert x == q * P + r;
    if r == 0 {
      DivUnique(-x, P, -q, 0);
    } else {
      assert -x == (-q - 1) * P + (P - r);
      DivUnique(-x, P, -q - 1, P - r);
    }
  }

  /** The top bit and the other 255. */
  lemma TopBit(s: seq<byte>, k: nat)
    requires |s| == 32 && k == 31
    ensures LoadLE(s) == Bits(LoadLE(s), 0, 8 * k + 7)
              + 0x8000000000000000000000000000000000000000000000000000000000000000 * (s[k] as nat / 128)
  {
    assert s[k..] == [s[k]] && LoadLE(s[k..]) == s[k] as nat;
    assert Pow2(7) == 128 && Shr(s[k] as nat, 7) == s[k] as nat / 128;
    hide Pow2, LoadLE, Shr, Bits;
    LoadDrop(s, k);
    TopWeight(s[..k]);
    ShrShr(LoadLE(s), 8 * k, 7);
    SplitAtBit(LoadLE(s), 8 * k + 7);
    Pow2Add(8 * k, 7);
  }

  /** A string is canonical for x: its y is below p, and its sign bit is clear if x is zero. */
  ghost predicate CanonicalFor(s: seq<byte>, x: int)
    requires |s| == 32
  {
    Bits(LoadLE(s), 0, 255) < P && (x % P != 0 || s[31] < 128)
  }

  /** Decoding, negating and encoding gives back a canonical string. */
  lemma DecodeThenEncode(s: seq<byte>, x: int, y: int)
    requires |s| == 32 && CanonicalFor(s, x)
    requires y % P == Bits(LoadLE(s), 0, 255) % P
    requires x % P != 0 ==> (x % P % 2 == 1 <==> s[31] < 128)
    ensures Encoding(-x, y) == LoadLE(s)
  {
    hide LoadLE, Bits;
    NegateParity(x);
    TopBit(s, |s| - 1);
  }
}
