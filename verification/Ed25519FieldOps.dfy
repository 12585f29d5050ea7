/**
 fe_add, fe_sub and fe_neg of ed25519/src/fe.c, the in-place forms of fe_mul and
 fe_sq, and the steps from power to power that addition chains are made of.
 */
module Ed25519FieldOps {
  import opened Arith
  import opened Congruence
  import opened Ints
  import opened Ed25519Field
  import opened Ed25519Carry
  import opened Ed25519FieldMul
  import opened Ed25519FieldSq
  import opened Powers

  /** |f| is at most n times the bound on a product. */
  ghost predicate Bound(f: Fe, n: nat) {
    forall k :: 0 <= k < 10 ==> Abs(f[k] as int, if k % 2 == 0 then n * 33889976 else n * 16944988)
  }

  lemma BoundsNest(f: Fe)
    ensures Tight(f) <==> Bound(f, 1)
    ensures Bound(f, 1) ==> Bound(f, 2)
    ensures Bound(f, 2) ==> Bound(f, 3)
    ensures Bound(f, 3) ==> Loose(f)
  {
  }

  lemma {:induction false} ValToSum(f: seq<int64>, g: seq<int64>, h: seq<int64>, s: int, n: nat)
    requires |f| == 10 && |g| == 10 && |h| == 10 && n <= 10
    requires forall k :: 0 <= k < 10 ==> h[k] as int == f[k] as int + s * g[k] as int
    ensures ValTo(h, n) == ValTo(f, n) + s * ValTo(g, n)
  {
    if n > 0 {
      ValToSum(f, g, h, s, n - 1);
      hide W;
      SumStep(f[n - 1] as int, s, g[n - 1] as int, W(n - 1), ValTo(g, n - 1));
    }
  }

  lemma SumStep(x: int, s: int, y: int, w: int, v: int)
    ensures s * v + (x + s * y) * w == x * w + s * (v + y * w)
  {
    MulAssoc(s, y, w);
    Distribute(s, v, y * w);
    assert (x + s * y) * w == x * w + s * y * w;
  }

  method FeAdd(f: Fe, g: Fe, ghost m: nat, ghost n: nat) returns (h: Fe)
    requires Bound(f, m) && Bound(g, n) && m + n <= 60
    ensures Bound(h, m + n) && FeVal(h) == FeVal(f) + FeVal(g)
    ensures forall k :: 0 <= k < 10 ==> h[k] as int == f[k] as int + g[k] as int
  {
    assert forall k :: 0 <= k < 10 ==> Abs(f[k] as int + g[k] as int, (m + n) * 33889976);
    h := seq(10, k requires 0 <= k < 10 => f[k] + g[k]);
    ValToSum(Wide(f), Wide(g), Wide(h), 1, 10);
  }

  method FeSub(f: Fe, g: Fe, ghost m: nat, ghost n: nat) returns (h: Fe)
    requires Bound(f, m) && Bound(g, n) && m + n <= 60
    ensures Bound(h, m + n) && FeVal(h) == FeVal(f) - FeVal(g)
    ensures forall k :: 0 <= k < 10 ==> h[k] as int == f[k] as int - g[k] as int
  {
    assert forall k :: 0 <= k < 10 ==> Abs(f[k] as int - g[k] as int, (m + n) * 33889976);
    h := seq(10, k requires 0 <= k < 10 => f[k] - g[k]);
    ValToSum(Wide(f), Wide(g), Wide(h), -1, 10);
  }

  method FeNeg(f: Fe, ghost n: nat) returns (h: Fe)
    requires Bound(f, n) && n <= 60
    ensures Bound(h, n) && FeVal(h) == -FeVal(f)
  {
    assert forall k :: 0 <= k < 10 ==> Abs(f[k] as int, n * 33889976);
    h := seq(10, k requires 0 <= k < 10 => -f[k]);
    var zero: seq<int64> := seq(10, k => 0);
    ValToZero(zero, 10);
    ValToSum(zero, Wide(f), Wide(h), -1, 10);
  }

  //// In place

  /** h = f * g; h may be f or g. */
  method FeMulTo(h: array<int32>, f: array<int32>, g: array<int32>)
    requires h.Length == 10 && f.Length == 10 && g.Length == 10
    requires Loose(f[..]) && Loose(g[..])
    modifies h
    ensures Tight(h[..]) && Congruent(FeVal(h[..]), old(FeVal(f[..])) * old(FeVal(g[..])), P)
  {
    hide FeVal, Congruent, Loose, Tight;
    var r := FeMul(f[..], g[..]);
    FeCopy(h, r);
  }

  method FeSqTo(h: array<int32>, f: array<int32>)
    requires h.Length == 10 && f.Length == 10 && Loose(f[..])
    modifies h
    ensures Tight(h[..]) && Congruent(FeVal(h[..]), old(FeVal(f[..])) * old(FeVal(f[..])), P)
  {
    hide FeVal, Congruent, Loose, Tight;
    var r := FeSq(f[..]);
    FeCopy(h, r);
  }

  method FeCopy(h: array<int32>, r: Fe)
    requires h.Length == 10
    modifies h
    ensures h[..] == r
  {
    for i := 0 to 10
      invariant h[..i] == r[..i]
    {
      h[i] := r[i];
    }
  }

  //// Powers

  /** t holds a power of z. */
  ghost predicate Holds(t: array<int32>, z: int, e: nat)
    reads t
  {
    t.Length == 10 && Loose(t[..]) && Congruent(FeVal(t[..]), Power(z, e), P)
  }

  method Mul(h: array<int32>, f: array<int32>, g: array<int32>, ghost z: int, ghost a: nat, ghost b: nat)
    requires h.Length == 10 && Holds(f, z, a) && Holds(g, z, b)
    modifies h
    ensures Holds(h, z, a + b) && Tight(h[..])
  {
    ghost var x, y := FeVal(f[..]), FeVal(g[..]);
    hide FeVal, Congruent, Loose, Tight, Power;
    FeMulTo(h, f, g);
    BoundsNest(h[..]);
    Congruence.Product(x, Power(z, a), y, Power(z, b), P);
    Transitive(FeVal(h[..]), x * y, Power(z, a) * Power(z, b), P);
    PowerAdd(z, a, b);
  }

  /** fe_sq(h, f), then n - 1 times fe_sq(h, h). */
  method Squares(h: array<int32>, f: array<int32>, n: nat, ghost z: int, ghost a: nat, ghost b: nat)
    requires 1 <= n && h.Length == 10 && Holds(f, z, a) && b == a * Pow2(n)
    modifies h
    ensures Holds(h, z, b)
  {
    ghost var e := 2 * a;
    Square(h, f, z, a);
    assert Pow2(1) == 2;
    hide Holds;
    for i := 1 to n
      invariant e == a * Pow2(i) && Holds(h, z, e)
    {
      Square(h, h, z, e);
      assert Pow2(i + 1) == 2 * Pow2(i);
      e := 2 * e;
    }
  }

  method Square(h: array<int32>, f: array<int32>, ghost z: int, ghost a: nat)
    requires h.Length == 10 && Holds(f, z, a)
    modifies h
    ensures Holds(h, z, 2 * a)
  {
    ghost var x := FeVal(f[..]);
    hide FeVal, Congruent, Loose, Tight, Power;
    FeSqTo(h, f);
    BoundsNest(h[..]);
    Congruence.Product(x, Power(z, a), x, Power(z, a), P);
    Transitive(FeVal(h[..]), x * x, Power(z, a) * Power(z, a), P);
    PowerAdd(z, a, a);
  }
}
