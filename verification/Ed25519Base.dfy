/** select and ge_scalarmult_base of ed25519/src/ge.c. */
module Ed25519Base {
  import opened Arith
  import opened BitOps
  import opened Bytes
  import opened Ints
  import opened Congruence
  import opened Groups
  import opened Ed25519Field
  import opened Ed25519Curve
  import opened Ed25519Points
  import opened Ed25519Codec
  import opened Ed25519Group
  import opened Ed25519ScalarMult
  import opened Ed25519Radix16
  import Ops = Ed25519FieldOps

  //// Selection without branches

  /** The 32 bits of a limb, and back. */
  function Word(x: int32): (w: nat)
    ensures w < 0x1_0000_0000
  {
    if x < 0 then x as int + 0x1_0000_0000 else x as int
  }

  function Signed(w: nat): int32
    requires w < 0x1_0000_0000
  {
    if w >= 0x8000_0000 then (w - 0x1_0000_0000) as int32 else w as int32
  }

  /** fe_cmov on one limb: f ^ (-b & (f ^ g)). */
  function Move(f: nat, g: nat, b: nat): nat
    requires b <= 1
  {
    Xor(f, And(if b == 0 then 0 else 0xFFFF_FFFF, Xor(f, g)))
  }

  lemma MoveIs(f: nat, g: nat, b: nat)
    requires b <= 1 && f < 0x1_0000_0000 && g < 0x1_0000_0000
    ensures Move(f, g, b) == if b == 1 then g else f
  {
    Pow2Small();
    var k := 32;
    assert Pow2(k) == 0x1_0000_0000 by { Pow2Add(16, 16); }
    XorBelow(f, g, k);
    AndOnes(Xor(f, g), k);
    XorTwice(f, g);
    XorNothing(f);
  }

  /** fe_cmov */
  method FeCmov(f: Fe, g: Fe, b: nat) returns (r: Fe)
    requires b <= 1
    ensures r == if b == 1 then g else f
  {
    hide Move;
    r := f;
    for i := 0 to 10
      invariant |r| == 10 && forall k :: 0 <= k < 10 ==> r[k] == if k < i && b == 1 then g[k] else f[k]
    {
      MoveIs(Word(f[i]), Word(g[i]), b);
      r := r[i := Signed(Move(Word(f[i]), Word(g[i]), b))];
    }
  }

  /** cmov */
  method Cmov(t: Precomp, u: Precomp, b: nat) returns (r: Precomp)
    requires b <= 1
    ensures r == if b == 1 then u else t
  {
    var yplusx := FeCmov(t.yplusx, u.yplusx, b);
    var yminusx := FeCmov(t.yminusx, u.yminusx, b);
    var xy2d := FeCmov(t.xy2d, u.xy2d, b);
    r := Precomp(yplusx, yminusx, xy2d);
  }

  /** equal(b, c): the top bit of (b ^ c) - 1 in 64 bits. */
  function Equal(b: bv8, c: bv8): bv64 { ((b ^ c) as bv64 - 1) >> 63 }

  /** The byte of a digit. */
  function Byte(b: int8): bv8 { (if b < 0 then b as int + 256 else b as int) as bv8 }

  /** negative(b): the top bit of b extended to 64 bits. */
  function Negative(b: bv8): bv64 {
    (if b & 0x80 != 0 then 0xFFFF_FFFF_FFFF_FF00 | (b as bv64) else b as bv64) >> 63
  }

  /** babs: b less twice b if it is negative. */
  function Absolute(b: bv8): bv8 { b - (((0 - (Negative(b) as bv8)) & b) << 1) }

  lemma EqualIs(b: bv8, c: bv8)
    ensures Equal(b, c) == if b == c then 1 else 0
  {
  }

  lemma NegativeIs(b: int8)
    ensures Negative(Byte(b)) == if b < 0 then 1 else 0
  {
    assert Byte(b) >= 0x80 <==> b < 0;
  }

  lemma AbsoluteIs(b: bv8)
    ensures Absolute(b) == if b >= 0x80 then 0 - b else b
  {
  }

  /** equal(babs, j) on digits. */
  lemma MatchesIs(b: int8, j: nat)
    requires -8 <= b <= 8 && 1 <= j <= 8
    ensures Equal(Absolute(Byte(b)), j as bv8) == if (b as int == j || -(b as int) == j) then 1 else 0
  {
    AbsoluteIs(Byte(b));
    EqualIs(Absolute(Byte(b)), j as bv8);
    hide Equal, Absolute;
    assert Byte(b) >= 0x80 <==> b < 0;
  }

  //// The base table

  /** base[i][j] is (j + 1) 256^i times the base point. */
  ghost predicate BaseTable(g: Group<CurvePoint>, base: seq<seq<Precomp>>, p: CurvePoint) {
    |base| == 32 && forall i :: 0 <= i < 32 ==> BaseRow(g, base[i], i, p)
  }

  ghost predicate BaseRow(g: Group<CurvePoint>, row: seq<Precomp>, i: nat, p: CurvePoint) {
    |row| == 8 && forall j :: 0 <= j < 8 ==> Multiple(row[j], (j + 1) * Pow2(8 * i), g, p)
  }

  lemma RowAt(g: Group<CurvePoint>, base: seq<seq<Precomp>>, i: nat, p: CurvePoint)
    requires BaseTable(g, base, p) && i < 32
    ensures |base| == 32 && |base[i]| == 8 && BaseRow(g, base[i], i, p)
  {
  }

  lemma EntryAt(g: Group<CurvePoint>, row: seq<Precomp>, i: nat, j: nat, p: CurvePoint)
    requires BaseRow(g, row, i, p) && j < 8
    ensures |row| == 8 && Multiple(row[j], (j + 1) * Pow2(8 * i), g, p)
  {
    hide Multiple, Pow2;
  }

  lemma MultipleIs(q: Precomp, k: int, g: Group<CurvePoint>, p: CurvePoint)
    ensures Multiple(q, k, g, p) <==> RepPrecomp(q, Mul(g, k, p))
  {
    hide RepPrecomp, Mul;
  }

  lemma RepIs(q: Precomp, a: CurvePoint)
    ensures RepPrecomp(q, a) <==> IsPrecomp(q, a.x, a.y)
  {
    hide IsPrecomp, Canonical;
  }

  lemma NeutralPrecomp()
    ensures IsPrecomp(Precomp(FE_ONE, FE_ONE, FE_ZERO), 0, 1)
  {
    One();
    Zero();
    ConstantBounds();
    hide FeVal, Ops.Bound;
    Reflexive(1, P);
    Reflexive(0, P);
  }

  /** The neutral point, for a digit of zero. */
  lemma NeutralEntry(g: Group<CurvePoint>, p: CurvePoint)
    requires Laws(g)
    ensures Multiple(Precomp(FE_ONE, FE_ONE, FE_ZERO), 0, g, p)
  {
    hide *;
    IsGroup(g);
    Basics(g, p);
    MulOne(g, p);
    var q := Precomp(FE_ONE, FE_ONE, FE_ZERO);
    NeutralPrecomp();
    RepIs(q, g.zero);
    MultipleIs(q, 0, g, p);
  }

  /** Swapping y + x and y - x and negating 2dxy gives the negative. */
  method NegatePrecomp(t: Precomp, ghost x: int, ghost y: int, ghost x': int) returns (r: Precomp)
    requires IsPrecomp(t, x, y) && Eq(x', -x)
    ensures IsPrecomp(r, x', y)
  {
    hide FeVal, Eq, Ops.Bound;
    var n := Ops.FeNeg(t.xy2d, 1);
    r := Precomp(t.yminusx, t.yplusx, n);
    NegatedCoordinates(x, y, x', FeVal(t.yplusx), FeVal(t.yminusx), FeVal(t.xy2d));
  }

  method Negated(t: Precomp, ghost k: int, ghost g: Group<CurvePoint>, ghost p: CurvePoint) returns (r: Precomp)
    requires Laws(g) && Multiple(t, k, g, p)
    ensures Multiple(r, -k, g, p)
  {
    hide *;
    ghost var a := Mul(g, k, p);
    IsGroup(g);
    Basics(g, a);
    MulNeg(g, k, p);
    MultipleIs(t, k, g, p);
    RepIs(t, a);
    r := NegatePrecomp(t, a.x, a.y, Neg(g, a).x);
    RepIs(r, Neg(g, a));
    MultipleIs(r, -k, g, p);
  }

  lemma NegatedCoordinates(x: int, y: int, x': int, s: int, d: int, t: int)
    requires Eq(s, y + x) && Eq(d, y - x) && Eq(t, 2 * D * (x * y)) && Eq(x', -x)
    ensures Eq(d, y + x') && Eq(s, y - x') && Eq(-t, 2 * D * (x' * y))
  {
    hide Congruent;
    Symmetric(x', -x, P);
    Reflexive(y, P);
    Congruence.Sum(y, y, -x, x', P);
    Chain(d, y - x, y + x');
    Minus(y, y, -x, x');
    Chain(s, y + x, y - x');
    Scaled(t, 2 * D * (x * y), -1, P);
    Scaled(-x, x', 2 * D * y, P);
    assert 2 * D * (x * y) * -1 == -x * (2 * D * y);
    assert x' * (2 * D * y) == 2 * D * (x' * y);
    Chain(-t, -x * (2 * D * y), 2 * D * (x' * y));
  }

  /** select: b times 256^pos times the base point. */
  method Select(base: seq<seq<Precomp>>, pos: nat, b: int8, ghost g: Group<CurvePoint>, ghost p: CurvePoint)
    returns (t: Precomp)
    requires Laws(g) && BaseTable(g, base, p) && pos < 32 && -8 <= b <= 8
    ensures Multiple(t, b as int * Pow2(8 * pos), g, p)
  {
    hide *;
    RowAt(g, base, pos, p);
    var row := base[pos];
    ghost var size: int := if b < 0 then -(b as int) else b as int;
    t := Precomp(FE_ONE, FE_ONE, FE_ZERO);
    NeutralEntry(g, p);
    ghost var w := Pow2(8 * pos);
    assert 0 * w == 0;
    for j := 0 to 8
      invariant Multiple(t, if size <= j then size * w else 0, g, p)
    {
      MatchesIs(b, j + 1);
      EntryAt(g, row, pos, j, p);
      t := Cmov(t, row[j], Equal(Absolute(Byte(b)), (j + 1) as bv8) as nat);
    }
    var minust := Negated(t, size * w, g, p);
    NegativeIs(b);
    assert -(size * w) == -size * w;
    t := Cmov(t, minust, Negative(Byte(b)) as nat);
  }

  /** One table entry added. */
  method AddEntry(h: P3, t: Precomp, ghost m: int, ghost k: int, ghost g: Group<CurvePoint>, ghost p: CurvePoint)
    returns (r: P3)
    requires Laws(g) && Rep3(h, Mul(g, m, p)) && Multiple(t, k, g, p)
    ensures Rep3(r, Mul(g, m + k, p))
  {
    hide *;
    IsGroup(g);
    MultipleIs(t, k, g, p);
    var q := AddPrecomp(h, t, g, Mul(g, m, p), Mul(g, k, p));
    MulAdd(g, m, k, p);
    r := ToP3(q, g, Mul(g, m + k, p));
  }

  method DoubleTo2(s: P1P1, ghost m: int, ghost g: Group<CurvePoint>, ghost p: CurvePoint) returns (r: P1P1)
    requires Laws(g) && Rep1(s, Mul(g, m, p))
    ensures Rep1(r, Mul(g, 2 * m, p))
  {
    hide *;
    IsGroup(g);
    var q := ToP2(s, g, Mul(g, m, p));
    r := Double(q, g, Mul(g, m, p));
    MulAdd(g, m, m, p);
  }

  /** Four doublings. */
  method TimesSixteen(h: P3, ghost m: int, ghost g: Group<CurvePoint>, ghost p: CurvePoint) returns (r: P3)
    requires Laws(g) && Rep3(h, Mul(g, m, p))
    ensures Rep3(r, Mul(g, 16 * m, p))
  {
    hide *;
    IsGroup(g);
    var s := Double3(h, g, Mul(g, m, p));
    MulAdd(g, m, m, p);
    s := DoubleTo2(s, 2 * m, g, p);
    s := DoubleTo2(s, 4 * m, g, p);
    s := DoubleTo2(s, 8 * m, g, p);
    r := ToP3(s, g, Mul(g, 16 * m, p));
  }

  /** Adds the digits at odd, odd + 2, ... of e. */
  method Pass(h0: P3, base: seq<seq<Precomp>>, e: seq<int8>, odd: nat, ghost m: int,
              ghost g: Group<CurvePoint>, ghost p: CurvePoint)
    returns (h: P3)
    requires Laws(g) && BaseTable(g, base, p) && Rep3(h0, Mul(g, m, p))
    requires |e| == 64 && odd <= 1 && Small(e, 64)
    ensures Rep3(h, Mul(g, m + HalfSum(e, odd, 32), p))
  {
    hide *;
    HalfZero(e, odd);
    h := h0;
    for j := 0 to 32
      invariant Rep3(h, Mul(g, m + HalfSum(e, odd, j), p))
    {
      SmallAt(e, 2 * j + odd);
      NextHalf(e, odd, j);
      var t := Select(base, j, e[2 * j + odd], g, p);
      h := AddEntry(h, t, m + HalfSum(e, odd, j), e[2 * j + odd] as int * Pow2(8 * j), g, p);
    }
  }

  lemma HalfZero(e: seq<int8>, odd: nat)
    requires |e| == 64 && odd <= 1
    ensures HalfSum(e, odd, 0) == 0
  {
  }

  lemma SmallAt(e: seq<int8>, k: nat)
    requires |e| == 64 && Small(e, 64) && k < 64
    ensures -8 <= e[k] <= 8
  {
  }

  lemma NextHalf(e: seq<int8>, odd: nat, j: nat)
    requires |e| == 64 && odd <= 1 && j < 32
    ensures HalfSum(e, odd, j + 1) == HalfSum(e, odd, j) + e[2 * j + odd] as int * Pow2(8 * j)
  {
  }

  /** ge_scalarmult_base: a times the base point. */
  method GeScalarMultBase(a: seq<byte>, base: seq<seq<Precomp>>, ghost g: Group<CurvePoint>, ghost p: CurvePoint)
    returns (h: P3)
    requires |a| == 32 && a[31] <= 127 && Laws(g) && BaseTable(g, base, p)
    ensures Rep3(h, Mul(g, LoadLE(a), p))
  {
    hide *;
    IsGroup(g);
    MulOne(g, p);
    var e := new int8[64];
    Recode(a, e);
    var d := e[..];
    TwoHalves(d, 32);
    h := Neutral3(g);
    h := Pass(h, base, d, 1, 0, g, p);
    h := TimesSixteen(h, HalfSum(d, 1, 32), g, p);
    h := Pass(h, base, d, 0, 16 * HalfSum(d, 1, 32), g, p);
  }
}
