/** fe_sq and fe_sq2 of ed25519/src/fe.c. */
module Ed25519FieldSq {
  import opened Arith
  import opened Congruence
  import opened Ints
  import opened Ed25519Field
  import opened Ed25519Carry
  import opened Ed25519FieldMul

  /** How often f_i f_j occurs in the square. */
  function Times(i: nat, j: nat): int { if i == j then 1 else 2 }

  /** The factor the source puts on f_i and the one it puts on f_j. */
  function LeftFactor(i: nat, j: nat): int {
    if i + j < 10 then (if i == j && i % 2 == 0 then 1 else 2)
    else if i == j || (i % 2 == 0 && j % 2 == 1) then 1 else 2
  }

  function RightFactor(i: nat, j: nat): int {
    if i + j < 10 then (if i < j && i % 2 == 1 && j % 2 == 1 then 2 else 1)
    else if j % 2 == 1 then 38 else 19
  }

  lemma Factors(i: nat, j: nat)
    requires i <= j < 10
    ensures LeftFactor(i, j) * RightFactor(i, j) == Factor(i, j) * Times(i, j)
  {
  }

  ghost function RowLimit(i: nat): int { if i == 0 then 24522099705281250 else 465919894400343750 }

  /** f_i f_j with its factors; every factor is applied in 32 bits. */
  method SqProduct(f: Fe, i: nat, j: nat) returns (p: int64)
    requires i <= j < 10 && Loose(f)
    ensures p as int == Factor(i, j) * (Times(i, j) * (f[i] as int * f[j] as int))
    ensures Abs(p as int, RowLimit(i))
  {
    var c, d := LeftFactor(i, j), RightFactor(i, j);
    ghost var x, y := f[i] as int, f[j] as int;
    Factors(i, j);
    SqBound(x, y, i, j);
    var a: int32 := c as int32 * f[i];
    var b: int32 := d as int32 * f[j];
    p := a as int64 * b as int64;
    hide LeftFactor, RightFactor, Factor;
    Gather(c, x, d, y);
    MulAssoc(Factor(i, j), Times(i, j), x * y);
  }

  lemma SqBound(x: int, y: int, i: nat, j: nat)
    requires i <= j < 10
    requires Abs(x, if i % 2 == 0 then 110729625 else 55364812)
    requires Abs(y, if j % 2 == 0 then 110729625 else 55364812)
    ensures Abs(LeftFactor(i, j) * x, 0x7FFF_FFFF) && Abs(RightFactor(i, j) * y, 0x7FFF_FFFF)
    ensures Abs(LeftFactor(i, j) * x * (RightFactor(i, j) * y), RowLimit(i))
  {
    var a, b := LeftFactor(i, j) * x, RightFactor(i, j) * y;
    if i == 0 {
      assert Abs(a, 221459250) && Abs(b, 110729625);
      Magnitudes(a, b, 221459250, 110729625);
    } else {
      assert Abs(a, 221459250) && Abs(b, 2103862875);
      Magnitudes(a, b, 221459250, 2103862875);
    }
  }

  lemma Magnitudes(a: int, b: int, m: int, n: int)
    requires Abs(a, m) && Abs(b, n)
    ensures Abs(a * b, m * n)
  {
    var c := if b < 0 then -b else b;
    MulMono(a, m, c);
    MulMono(-m, a, c);
    MulMono(c, n, m);
    assert m * c == c * m && n * m == m * n && -m * c == -(m * c);
  }

  /** What the columns hold after rows 0, ..., i - 1, at most. */
  ghost function Limit(i: nat): int { if i == 0 then 0 else 24522099705281250 + (i - 1) * 465919894400343750 }

  /** The part of the square that limbs i and j account for. */
  ghost function Weighted(f: Fe, i: nat, j: nat): int
    requires i < 10 && j < 10
  {
    Times(i, j) * (f[i] as int * f[j] as int) * (W(i) * W(j))
  }

  /** The part of the square that limb i and the limbs from i to j - 1 account for. */
  ghost function RowSum(f: Fe, i: nat, j: nat): int
    requires i < 10 && j <= 10
  {
    var x := f[i] as int * W(i);
    x * (2 * ValTo(Wide(f), j) - 2 * ValTo(Wide(f), i) - x)
  }

  /** One term of row i of the square. */
  method SqTerm(h: seq<int64>, h0: seq<int64>, f: Fe, i: nat, j: nat, ghost v: int) returns (r: seq<int64>)
    requires |h| == 10 && |h0| == 10 && i <= j < 10 && Loose(f)
    requires AllAbs(h0, Limit(i)) && Near(h, h0, RowLimit(i)) && Untouched(h, h0, i, j)
    requires Congruent(ValTo(h, 10), v, P)
    ensures |r| == 10 && Near(r, h0, RowLimit(i)) && Untouched(r, h0, i, j + 1)
    ensures Congruent(ValTo(r, 10), v + Weighted(f, i, j), P)
  {
    hide ValTo, W, Factor, Congruent, Untouched, Times;
    var p := SqProduct(f, i, j);
    RowBound(h, h0, i, j, Limit(i));
    r := AddTerm(h, i, j, p, Times(i, j) * (f[i] as int * f[j] as int), v);
    RowAdvance(h, r, h0, i, j, p as int, RowLimit(i));
  }

  method SqRow(h0: seq<int64>, f: Fe, i: nat, ghost v: int) returns (h: seq<int64>)
    requires |h0| == 10 && i < 10 && Loose(f)
    requires AllAbs(h0, Limit(i)) && Congruent(ValTo(h0, 10), v, P)
    ensures |h| == 10 && AllAbs(h, Limit(i + 1))
    ensures Congruent(ValTo(h, 10), v + RowSum(f, i, 10), P)
  {
    FirstTerm(f, i);
    hide ValTo, W, RowSum, Weighted, Congruent, Untouched, Near, AllAbs, RowLimit, Limit;
    StartRow(h0, i);
    h := SqTerm(h0, h0, f, i, i, v);
    for j := i + 1 to 10
      invariant |h| == 10 && Near(h, h0, RowLimit(i)) && Untouched(h, h0, i, j)
      invariant Congruent(ValTo(h, 10), v + RowSum(f, i, j), P)
    {
      h := SqTerm(h, h0, f, i, j, v + RowSum(f, i, j));
      NextTerm(f, i, j);
    }
    EndRow(h, h0, i);
  }

  lemma EndRow(h: seq<int64>, h0: seq<int64>, i: nat)
    requires |h| == 10 && |h0| == 10 && Near(h, h0, RowLimit(i)) && AllAbs(h0, Limit(i))
    ensures AllAbs(h, Limit(i + 1))
  {
  }

  lemma StartRow(h: seq<int64>, i: nat)
    requires |h| == 10
    ensures Untouched(h, h, i, i) && Near(h, h, RowLimit(i))
  {
    assert Abs(0, RowLimit(i));
  }

  lemma FirstTermIs(x: int, w: int, s: int)
    ensures 1 * (x * x) * (w * w) == x * w * (2 * (s + x * w) - 2 * s - x * w)
  {
    var z := x * w;
    var e := 2 * (s + z) - 2 * s - z;
    assert e == z;
    calc {
      1 * (x * x) * (w * w);
      x * x * (w * w);
      { MulAssoc(x, x, w * w); MulAssoc(x, w, w); assert x * (w * w) == z * w; }
      x * (z * w);
      { assert x * (z * w) == x * w * z; }
      z * e;
    }
  }

  lemma NextTermIs(x: int, w: int, y: int, u: int, t: int, s: int)
    ensures var z := x * w;
            z * (2 * t - 2 * s - z) + 2 * (x * y) * (w * u) == z * (2 * (t + y * u) - 2 * s - z)
  {
    var z, e := x * w, y * u;
    assert x * y * (w * u) == z * e;
    assert 2 * (x * y) * (w * u) == 2 * (z * e);
    Distribute(z, 2 * t - 2 * s - z, 2 * e);
    assert z * (2 * e) == 2 * (z * e);
  }

  lemma FirstTerm(f: Fe, i: nat)
    requires i < 10
    ensures Weighted(f, i, i) == RowSum(f, i, i + 1)
  {
    NextLimb(f, i);
    FirstTermIs(f[i] as int, W(i), ValTo(Wide(f), i));
  }

  lemma NextTerm(f: Fe, i: nat, j: nat)
    requires i < j < 10
    ensures RowSum(f, i, j) + Weighted(f, i, j) == RowSum(f, i, j + 1)
  {
    NextLimb(f, j);
    NextTermIs(f[i] as int, W(i), f[j] as int, W(j), ValTo(Wide(f), j), ValTo(Wide(f), i));
  }

  /** The ten columns of the square. */
  method SqColumns(f: Fe) returns (h: seq<int64>)
    requires Loose(f)
    ensures |h| == 10 && AllAbs(h, 4217801149308375000)
    ensures Congruent(ValTo(h, 10), FeVal(f) * FeVal(f), P)
  {
    h := seq(10, i => 0);
    ValToZero(h, 10);
    assert ValTo(Wide(f), 0) == 0;
    hide ValTo, W, Congruent;
    ghost var w := FeVal(f);
    assert 0 * (2 * w - 0) == 0;
    Reflexive(0, P);
    for i := 0 to 10
      invariant |h| == 10 && AllAbs(h, Limit(i))
      invariant Congruent(ValTo(h, 10), ValTo(Wide(f), i) * (2 * w - ValTo(Wide(f), i)), P)
    {
      ghost var s, x := ValTo(Wide(f), i), f[i] as int * W(i);
      h := SqRow(h, f, i, s * (2 * w - s));
      NextLimb(f, i);
      SquareStep(s, x, w);
    }
  }

  lemma SquareStep(s: int, x: int, w: int)
    ensures s * (2 * w - s) + x * (2 * w - 2 * s - x) == (s + x) * (2 * w - (s + x))
  {
    Distribute(s, 2 * w - s, -x);
    Distribute(x, 2 * w - 2 * s - x, s);
    assert s * -x == -(x * s);
  }

  /** fe_sq */
  method FeSq(f: Fe) returns (r: Fe)
    requires Loose(f)
    ensures Tight(r) && Congruent(FeVal(r), FeVal(f) * FeVal(f), P)
  {
    hide ValTo, Congruent;
    var h := SqColumns(f);
    r := FinishProduct(h, FeVal(f) * FeVal(f));
  }

  method Double(h: seq<int64>) returns (r: seq<int64>)
    requires |h| == 10 && AllAbs(h, 4217801149308375000)
    ensures |r| == 10 && AllAbs(r, 0x7600_0000_0000_0000) && ValTo(r, 10) == 2 * ValTo(h, 10)
  {
    r := h;
    for i := 0 to 10
      invariant |r| == 10 && forall k :: 0 <= k < 10 ==> r[k] as int == h[k] as int * (if k < i then 2 else 1)
    {
      r := r[i := r[i] + r[i]];
    }
    ValToDouble(h, r, 10);
  }

  lemma {:induction false} ValToDouble(h: seq<int64>, r: seq<int64>, n: nat)
    requires n <= 10 == |h| == |r| && forall k :: 0 <= k < 10 ==> r[k] as int == h[k] as int * 2
    ensures ValTo(r, n) == 2 * ValTo(h, n)
  {
    if n > 0 {
      ValToDouble(h, r, n - 1);
      MulAssoc(2, h[n - 1] as int, W(n - 1));
    }
  }

  /** fe_sq2 */
  method FeSq2(f: Fe) returns (r: Fe)
    requires Loose(f)
    ensures Tight(r) && Congruent(FeVal(r), 2 * (FeVal(f) * FeVal(f)), P)
  {
    hide ValTo, Congruent;
    var h := SqColumns(f);
    var d := Double(h);
    ghost var v := FeVal(f) * FeVal(f);
    Scaled(ValTo(h, 10), v, 2, P);
    r := FinishProduct(d, 2 * v);
  }
}
