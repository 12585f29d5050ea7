/** Point constants, cached points, and the byte encoding of points in ed25519/src/ge.c. */
module Ed25519Codec {
  import opened Arith
  import opened Bytes
  import opened Congruence
  import opened Ints
  import opened Powers
  import opened Ed25519Field
  import opened Ed25519Carry
  import opened Ed25519FieldMul
  import opened Ed25519FieldOps
  import opened Ed25519Curve
  import opened Ed25519Points
  import opened Ed25519FromBytes
  import opened Ed25519ToBytes
  import opened Ed25519FieldBytes
  import opened Ed25519Invert

  const FE_D: Fe := [-10913610, 13857413, -15372611, 6949391, 114729, -8787816, -6275908, -3247719, -18696448, -12055116]
  const FE_D2: Fe := [-21827239, -5839606, -30745221, 13898782, 229458, 15978800, -12551817, -6495438, 29715968, 9444199]
  const FE_SQRTM1: Fe := [-32595792, -7943725, 9377950, 3500415, 12389472, -272473, -25146209, -2005654, 326686, 11406482]

  lemma Weights()
    ensures W(0) == 1 && W(1) == 0x4000000 && W(2) == 0x8000000000000 && W(3) == 0x20000000000000000000
    ensures W(4) == 0x40000000000000000000000000 && W(5) == 0x100000000000000000000000000000000
    ensures W(6) == 0x200000000000000000000000000000000000000
    ensures W(7) == 0x800000000000000000000000000000000000000000000
    ensures W(8) == 0x1000000000000000000000000000000000000000000000000000
    ensures W(9) == 0x4000000000000000000000000000000000000000000000000000000000
  {
    assert W(2) == 0x8000000000000;
    assert W(4) == 0x40000000000000000000000000;
    assert W(6) == 0x200000000000000000000000000000000000000;
    assert W(8) == 0x1000000000000000000000000000000000000000000000000000;
  }

  ghost function Sum10(a: int, b: int, c: int, d: int, e: int, f: int, g: int, h: int, i: int, j: int): int {
    a + 0x4000000 * b + 0x8000000000000 * c + 0x20000000000000000000 * d + 0x40000000000000000000000000 * e
    + 0x100000000000000000000000000000000 * f + 0x200000000000000000000000000000000000000 * g
    + 0x800000000000000000000000000000000000000000000 * h
    + 0x1000000000000000000000000000000000000000000000000000 * i
    + 0x4000000000000000000000000000000000000000000000000000000000 * j
  }

  /** The weighted sum written out. */
  lemma FeValue(f: Fe)
    ensures FeVal(f) == Sum10(f[0] as int, f[1] as int, f[2] as int, f[3] as int, f[4] as int,
                              f[5] as int, f[6] as int, f[7] as int, f[8] as int, f[9] as int)
  {
    assert ValTo(Wide(f), 0) == 0;
    hide ValTo, W;
    Weights();
    NextLimb(f, 0); NextLimb(f, 1); NextLimb(f, 2); NextLimb(f, 3); NextLimb(f, 4);
    NextLimb(f, 5); NextLimb(f, 6); NextLimb(f, 7); NextLimb(f, 8); NextLimb(f, 9);
  }

  lemma ValueOfD()
    ensures FeVal(FE_D) == -20800338683988658368647408995589388737092878452977063003340006470870624536394
  {
    FeValue(FE_D);
    hide FeVal;
  }

  lemma ValueOfD2()
    ensures FeVal(FE_D2) == 16295367250680780974490674513165176452449235426866156013048779062215315747161
  {
    FeValue(FE_D2);
    hide FeVal;
  }

  lemma ValueOfRoot()
    ensures FeVal(FE_SQRTM1) == 19681161376707505956807079304988542015446066515923890162744021073123829784752
  {
    FeValue(FE_SQRTM1);
    hide FeVal;
  }

  lemma BoundOfD()
    ensures Bound(FE_D, 1)
  {
  }

  lemma BoundOfD2()
    ensures Bound(FE_D2, 1)
  {
  }

  lemma BoundOfRoot()
    ensures Bound(FE_SQRTM1, 1)
  {
  }

  lemma BoundOfUnits()
    ensures Bound(FE_ONE, 1) && Bound(FE_ZERO, 1)
  {
  }

  lemma ConstantBounds()
    ensures Bound(FE_D, 1) && Bound(FE_D2, 1) && Bound(FE_SQRTM1, 1)
    ensures Bound(FE_ONE, 1) && Bound(FE_ZERO, 1)
  {
    hide Bound;
    BoundOfD();
    BoundOfD2();
    BoundOfRoot();
    BoundOfUnits();
  }

  /** d is the constant of the curve, -121665 / 121666, and d2 is twice that. */
  lemma CurveConstants()
    ensures Eq(FeVal(FE_D), D) && Eq(FeVal(FE_D2), 2 * D) && Eq(121666 * D, -121665)
  {
    Differ(121666 * D, -121665, 77955, P);
    ValueOfD();
    ValueOfD2();
    hide FeVal;
    Less(FeVal(FE_D), D, 1, P);
    Less(FeVal(FE_D2), 2 * D, 1, P);
  }

  /** sqrtm1 is a square root of -1. */
  lemma RootOfMinusOne()
    ensures Eq(FeVal(FE_SQRTM1) * FeVal(FE_SQRTM1), -1)
  {
    ValueOfRoot();
    hide FeVal;
    Differ(387348113136003291197303391680336335241039484428565772187483758246973276864157776262568486460594403692252504285748194807602236087304417973383726651701504, -1, 6690407189080634018507799843845558368979872843924222843531373839242004886245, P);
  }

  const FE_ONE: Fe := [1, 0, 0, 0, 0, 0, 0, 0, 0, 0]

  const FE_ZERO: Fe := [0, 0, 0, 0, 0, 0, 0, 0, 0, 0]

  lemma Zero()
    ensures FeVal(FE_ZERO) == 0
  {
    FeValue(FE_ZERO);
    hide FeVal;
  }

  lemma One()
    ensures FeVal(FE_ONE) == 1
  {
    FeValue(FE_ONE);
    hide FeVal;
  }

  /** ge_p3_to_cached */
  method GeToCached(p: P3, ghost x: int, ghost y: int) returns (r: Cached)
    requires Is3(p, x, y)
    ensures IsCached(r, x, y) && r.Z == p.Z
  {
    CurveConstants();
    ConstantBounds();
    hide FeVal, Bound, Eq;
    var s := FeAdd(p.Y, p.X, 1, 1);
    var d := FeSub(p.Y, p.X, 1, 1);
    var t := FMul(p.T, FE_D2, 1, 1);
    ghost var z := FeVal(p.Z);
    SumAndDifference(x, y, FeVal(p.X), FeVal(p.Y), z);
    Multiplied(FeVal(t), FeVal(p.T), x * y * z, FeVal(FE_D2), 2 * D);
    assert x * y * z * (2 * D) == 2 * D * (x * y) * z by { MulAssoc(2 * D, x * y, z); }
    r := Cached(s, d, p.Z, t);
  }

  lemma NeutralCoordinates(x: int, y: int)
    requires Eq(x, 0) && Eq(y, 1)
    ensures Eq(0, x * 1) && Eq(1, y * 1) && Eq(0, x * y * 1)
  {
    Symmetric(x, 0, P);
    Symmetric(y, 1, P);
    Scaled(0, x, y, P);
  }

  /** ge_p2_0 */
  method GeP2Zero(ghost x: int, ghost y: int) returns (r: P2)
    requires Eq(x, 0) && Eq(y, 1)
    ensures Is2(r, x, y) && FeVal(r.Z) == 1
  {
    One();
    Zero();
    ConstantBounds();
    hide FeVal, Bound, Eq;
    NeutralCoordinates(x, y);
    r := P2(FE_ZERO, FE_ONE, FE_ONE);
  }

  /** ge_p3_0 */
  method GeP3Zero(ghost x: int, ghost y: int) returns (r: P3)
    requires Eq(x, 0) && Eq(y, 1)
    ensures Is3(r, x, y) && FeVal(r.Z) == 1
  {
    One();
    Zero();
    ConstantBounds();
    hide FeVal, Bound, Eq;
    NeutralCoordinates(x, y);
    r := P3(FE_ZERO, FE_ONE, FE_ONE, FE_ZERO);
  }

  //// Encoding

  /** 255 bits of y and the parity of x. */
  ghost function Encoding(x: int, y: int): nat {
    y % P + 0x8000000000000000000000000000000000000000000000000000000000000000 * (x % P % 2)
  }

  /** fe_invert on values. */
  method Invert(f: Fe) returns (r: Fe)
    requires Bound(f, 1)
    ensures Bound(r, 1) && Eq(FeVal(r), Power(FeVal(f), P - 2))
  {
    BoundsNest(f);
    hide FeVal, Bound, Congruent, Power, Loose, Tight;
    var z, out := new int32[10], new int32[10];
    FeCopy(z, f);
    FeInvert(out, z);
    r := out[..];
    BoundsNest(r);
  }

  lemma TightMedium(f: Fe)
    requires Bound(f, 1)
    ensures Medium(f)
  {
  }

  /** An affine coordinate recovered by the inverse of z. */
  lemma Affine(v: int, vx: int, x: int, z: int, i: int, j: int)
    requires Eq(v, vx * i) && Eq(vx, x * z) && Eq(i, j) && Eq(z * j, 1)
    ensures v % P == x % P
  {
    hide Congruent;
    Multiplied(v, vx, x * z, i, j);
    MulAssoc(x, z, j);
    Scaled(z * j, 1, x, P);
    assert x * (z * j) == z * j * x && 1 * x == x;
    Chain(v, x * (z * j), x);
    SameResidue(v, x, P);
  }

  /** ge_tobytes: the encoding of the point, when Z^(p - 2) inverts Z. */
  method GeToBytes(h: P2, ghost x: int, ghost y: int) returns (s: seq<byte>)
    requires Is2(h, x, y) && Eq(FeVal(h.Z) * Power(FeVal(h.Z), P - 2), 1)
    ensures |s| == 32 && LoadLE(s) == Encoding(x, y)
    ensures LoadLE(s) == y % P + 0x8000000000000000000000000000000000000000000000000000000000000000 * (x % P % 2)
  {
    hide FeVal, Bound, Eq, Power, LoadLE;
    var recip := Invert(h.Z);
    var vx := FMul(h.X, recip, 1, 1);
    var vy := FMul(h.Y, recip, 1, 1);
    ghost var z, i := FeVal(h.Z), FeVal(recip);
    Affine(FeVal(vx), FeVal(h.X), x, z, i, Power(z, P - 2));
    Affine(FeVal(vy), FeVal(h.Y), y, z, i, Power(z, P - 2));
    TightMedium(vx);
    TightMedium(vy);
    hide Medium;
    var t := FeToBytes(vy);
    var odd := FeIsNegative(vx);
    TopByte(t);
    s := t[31 := if odd then FlipTop(t[31]) else t[31]];
    SetTop(t, s[31]);
  }

  /** b ^ 0x80 */
  function FlipTop(b: byte): byte { if b < 128 then b + 128 else b - 128 }

  lemma TopByte(t: seq<byte>)
    requires |t| == 32 && LoadLE(t) < P
    ensures t[31] < 128
  {
    hide LoadLE;
    SplitLast(t);
  }

  lemma SplitLast(t: seq<byte>)
    requires |t| == 32
    ensures LoadLE(t) == LoadLE(t[..31])
              + 0x100000000000000000000000000000000000000000000000000000000000000 * t[31] as nat
  {
    var low, last := t[..31], [t[31]];
    assert LoadLE(last) == t[31] as nat;
    hide LoadLE, Pow2;
    assert t == low + last;
    LoadConcat(low, last);
    TopWeight(low);
  }

  lemma TopWeight(low: seq<byte>)
    requires |low| == 31
    ensures Pow2(8 * |low|) == 0x100000000000000000000000000000000000000000000000000000000000000
  {
    hide Pow2;
    Pow256(|low|);
    Pow2Of256(|low| + 1);
  }

  lemma SetTop(t: seq<byte>, b: byte)
    requires |t| == 32
    ensures LoadLE(t[31 := b]) == LoadLE(t)
              + 0x100000000000000000000000000000000000000000000000000000000000000 * (b as int - t[31] as int)
  {
    hide LoadLE;
    var u := t[31 := b];
    assert u[..31] == t[..31];
    SplitLast(t);
    SplitLast(u);
  }
}
