/**
 fe_mul of ed25519/src/fe.c.  The hundred products are formed row by row, so
 each column still receives its ten terms in the order of the source.
 */
module Ed25519FieldMul {
  import opened Arith
  import opened Congruence
  import opened Ints
  import opened Ed25519Field
  import opened Ed25519Carry

  /** |f| bounded by 1.65*2^26, 1.65*2^25, 1.65*2^26, ... */
  ghost predicate Loose(f: Fe) {
    forall k :: 0 <= k < 10 ==> Abs(f[k] as int, if k % 2 == 0 then 110729625 else 55364812)
  }

  /** |f| bounded by 1.01*2^25, 1.01*2^24, 1.01*2^25, ... */
  ghost predicate Tight(f: Fe) {
    forall k :: 0 <= k < 10 ==> Abs(f[k] as int, if k % 2 == 0 then 33889976 else 16944988)
  }

  //// One product

  function Factor(i: nat, j: nat): int { Both(i, j) * (if i + j < 10 then 1 else 19) }

  /** A product of limbs i and j belongs in limb (i + j) mod 10. */
  lemma Term(i: nat, j: nat, z: int)
    requires i < 10 && j < 10
    ensures Congruent(Factor(i, j) * z * W((i + j) % 10), z * (W(i) * W(j)), P)
  {
    hide W, Congruent;
    WeightProduct(i, j);
    var k, b := (i + j) % 10, Both(i, j);
    hide Both;
    Shuffle(b, z, W(i + j));
    if i + j < 10 {
      Reflexive(b * z * W(k), P);
    } else {
      WeightProduct(10, k) by { assert Both(10, k) == 1; }
      WeightValues();
      assert W(i + j) == W(10) * W(k);
      Shuffle(b * 19, z, W(k));
      WrapTerm(b * z, W(k));
      assert b * 19 * z == 19 * (b * z);
    }
  }

  lemma Shuffle(b: int, z: int, w: int)
    ensures z * (b * w) == b * z * w
  {
  }

  lemma WrapTerm(t: int, w: int)
    ensures Congruent(19 * t * w, t * (0x8000000000000000000000000000000000000000000000000000000000000000 * w), P)
  {
    var u := t * w;
    assert 19 * t * w == 19 * u;
    assert t * (0x8000000000000000000000000000000000000000000000000000000000000000 * w)
        == 0x8000000000000000000000000000000000000000000000000000000000000000 * u;
    TimesP(u);
    Less(19 * u, 0x8000000000000000000000000000000000000000000000000000000000000000 * u, u, P);
  }

  /** |a * b| for a within 1.65*2^26 and b within 19 times that. */
  lemma ProductBound(a: int, b: int)
    requires Abs(a, 110729625) && Abs(b, 2103862875)
    ensures Abs(a * b, 232959947200171875)
  {
    var c := if b < 0 then -b else b;
    MulMono(a, 110729625, c);
    MulMono(-110729625, a, c);
  }

  /** f_i times g_j with the factors the source attaches to them. */
  method Product(f: Fe, g: Fe, i: nat, j: nat) returns (p: int64)
    requires i < 10 && j < 10 && Loose(f) && Loose(g)
    ensures p as int == Factor(i, j) * (f[i] as int * g[j] as int) && Abs(p as int, 232959947200171875)
  {
    var a: int32 := if i % 2 == 1 && j % 2 == 1 then 2 * f[i] else f[i];
    var b: int32 := if i + j >= 10 then 19 * g[j] else g[j];
    ProductBound(a as int, b as int);
    p := a as int64 * b as int64;
    ghost var c, d := Both(i, j), if i + j < 10 then 1 else 19;
    Gather(c, f[i] as int, d, g[j] as int);
  }

  lemma Gather(c: int, x: int, d: int, y: int)
    ensures c * x * (d * y) == c * d * (x * y)
  {
    assert x * (d * y) == d * (x * y);
    MulAssoc(c, x, d * y);
    MulAssoc(c, d, x * y);
  }

  /** h[k] += p, where p is congruent to x times y in their places. */
  method AddTerm(h: seq<int64>, i: nat, j: nat, p: int64, ghost z: int, ghost v: int) returns (r: seq<int64>)
    requires |h| == 10 && i < 10 && j < 10 && p as int == Factor(i, j) * z
    requires Abs(h[(i + j) % 10] as int + p as int, 0x7F00_0000_0000_0000)
    requires Congruent(ValTo(h, 10), v, P)
    ensures |r| == 10 && r == h[(i + j) % 10 := r[(i + j) % 10]]
    ensures r[(i + j) % 10] as int == h[(i + j) % 10] as int + p as int
    ensures Congruent(ValTo(r, 10), v + z * (W(i) * W(j)), P)
  {
    var k := (i + j) % 10;
    r := h[k := h[k] + p];
    ValToUpdate(h, 10, k, r[k]);
    hide ValTo, W, Factor, Congruent;
    Term(i, j, z);
    Sum(ValTo(h, 10), v, p as int * W(k), z * (W(i) * W(j)), P);
  }

  /** Column k has not received its term of row i yet. */
  ghost predicate Untouched(h: seq<int64>, h0: seq<int64>, i: nat, j: nat)
    requires |h| == 10 && |h0| == 10
  {
    forall k :: 0 <= k < 10 && (k + 10 - i) % 10 >= j ==> h[k] == h0[k]
  }

  ghost predicate Near(h: seq<int64>, h0: seq<int64>, m: int)
    requires |h| == |h0|
  {
    forall k :: 0 <= k < |h| ==> Abs(h[k] as int - h0[k] as int, m)
  }

  lemma RowBound(h: seq<int64>, h0: seq<int64>, i: nat, j: nat, m: int)
    requires |h| == 10 && |h0| == 10 && i < 10 && j < 10 && Untouched(h, h0, i, j) && AllAbs(h0, m)
    ensures h[(i + j) % 10] == h0[(i + j) % 10] && Abs(h[(i + j) % 10] as int, m)
  {
    assert ((i + j) % 10 + 10 - i) % 10 == j;
  }

  lemma Unchanged(h: seq<int64>, i: nat)
    requires |h| == 10
    ensures Untouched(h, h, i, 0)
  {
  }

  /** The invariant of a row, one term further. */
  lemma RowAdvance(t: seq<int64>, h: seq<int64>, h0: seq<int64>, i: nat, j: nat, p: int, m: int)
    requires |t| == 10 && |h| == 10 && |h0| == 10 && i < 10 && j < 10 && Abs(p, m)
    requires Near(t, h0, m) && Untouched(t, h0, i, j)
    requires h == t[(i + j) % 10 := h[(i + j) % 10]] && h[(i + j) % 10] as int == t[(i + j) % 10] as int + p
    ensures Near(h, h0, m) && Untouched(h, h0, i, j + 1)
  {
    assert ((i + j) % 10 + 10 - i) % 10 == j;
  }

  method MulRow(h0: seq<int64>, f: Fe, g: Fe, i: nat, ghost v: int) returns (h: seq<int64>)
    requires |h0| == 10 && i < 10 && Loose(f) && Loose(g)
    requires AllAbs(h0, i * 232959947200171875) && Congruent(ValTo(h0, 10), v, P)
    ensures |h| == 10 && AllAbs(h, (i + 1) * 232959947200171875)
    ensures Congruent(ValTo(h, 10), v + f[i] as int * W(i) * FeVal(g), P)
  {
    h := h0;
    ghost var x := f[i] as int * W(i);
    assert ValTo(Wide(g), 0) == 0;
    hide ValTo, W, Factor, Congruent, Untouched;
    assert x * 0 == 0;
    assert Untouched(h, h0, i, 0) by { Unchanged(h0, i); }
    for j := 0 to 10
      invariant |h| == 10 && Near(h, h0, 232959947200171875) && Untouched(h, h0, i, j)
      invariant Congruent(ValTo(h, 10), v + x * ValTo(Wide(g), j), P)
    {
      var p := Product(f, g, i, j);
      ghost var z := f[i] as int * g[j] as int;
      ghost var t := h;
      RowBound(h, h0, i, j, i * 232959947200171875);
      h := AddTerm(h, i, j, p, z, v + x * ValTo(Wide(g), j));
      RowAdvance(t, h, h0, i, j, p as int, 232959947200171875);
      RowStep(f[i] as int, W(i), g[j] as int, W(j), ValTo(Wide(g), j));
      NextLimb(g, j);
    }
  }

  lemma NextLimb(g: Fe, j: nat)
    requires j < 10
    ensures ValTo(Wide(g), j + 1) == ValTo(Wide(g), j) + g[j] as int * W(j)
  {
  }

  lemma RowStep(x: int, w: int, y: int, u: int, s: int)
    ensures x * w * s + x * y * (w * u) == x * w * (s + y * u)
  {
    Distribute(x * w, s, y * u);
    assert x * y * (w * u) == x * w * (y * u);
  }

  /** The int32 limbs of a reduced result. */
  method Narrow(h: seq<int64>) returns (f: Fe)
    requires |h| == 10 && Reduced(h)
    ensures Tight(f) && FeVal(f) == ValTo(h, 10)
  {
    f := seq(10, i requires 0 <= i < 10 => assert Abs(h[i] as int, 33889976); h[i] as int32);
    assert Wide(f) == h;
  }

  method FinishProduct(h: seq<int64>, ghost v: int) returns (r: Fe)
    requires |h| == 10 && AllAbs(h, 0x7600_0000_0000_0000) && Congruent(ValTo(h, 10), v, P)
    ensures Tight(r) && Congruent(FeVal(r), v, P)
  {
    hide ValTo, Congruent;
    var a := FirstCarries(h);
    var b := LastCarries(a);
    Transitive(ValTo(b, 10), ValTo(h, 10), v, P);
    r := Narrow(b);
  }

  /** fe_mul */
  method FeMul(f: Fe, g: Fe) returns (r: Fe)
    requires Loose(f) && Loose(g)
    ensures Tight(r) && Congruent(FeVal(r), FeVal(f) * FeVal(g), P)
  {
    var h: seq<int64> := seq(10, i => 0);
    ValToZero(h, 10);
    assert ValTo(Wide(f), 0) == 0;
    hide ValTo, W, Congruent;
    ghost var w := FeVal(g);
    assert 0 * w == 0;
    Reflexive(0, P);
    for i := 0 to 10
      invariant |h| == 10 && AllAbs(h, i * 232959947200171875)
      invariant Congruent(ValTo(h, 10), ValTo(Wide(f), i) * w, P)
    {
      h := MulRow(h, f, g, i, ValTo(Wide(f), i) * w);
      NextLimb(f, i);
      ColumnStep(ValTo(Wide(f), i), f[i] as int * W(i), w);
    }
    r := FinishProduct(h, FeVal(f) * w);
  }

  lemma ColumnStep(s: int, x: int, w: int)
    ensures s * w + x * w == (s + x) * w
  {
  }

  lemma {:induction false} ValToZero(h: seq<int64>, n: nat)
    requires n <= |h| && forall k :: 0 <= k < |h| ==> h[k] == 0
    ensures ValTo(h, n) == 0
  {
    if n > 0 { ValToZero(h, n - 1); }
  }
}
