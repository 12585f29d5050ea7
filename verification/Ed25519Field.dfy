/**
 Field elements of ed25519/src/fe.c: ten limbs of alternately 26 and 25 bits,
 held in int32 and summed in int64, standing for an integer mod 2^255 - 19.
 */
module Ed25519Field {
  import opened Arith
  import opened Congruence
  import opened Ints

  /** 2^255 - 19 */
  const P: int := 0x7fffffffffffffffffffffffffffffffffffffffffffffffffffffffffffffed

  /** A field element: ten limbs. */
  type Fe = s: seq<int32> | |s| == 10 witness [0, 0, 0, 0, 0, 0, 0, 0, 0, 0]

  /** The number of values of limb i. */
  function Radix(i: nat): int { if i % 2 == 0 then 0x400_0000 else 0x200_0000 }

  /** The weight of limb i: 2^(25.5 i), rounded up. */
  ghost function W(i: nat): (w: int)
    ensures w > 0
  {
    if i == 0 then 1 else W(i - 1) * Radix(i - 1)
  }

  /** The integer that the limbs below n stand for. */
  ghost function ValTo(h: seq<int64>, n: nat): int
    requires n <= |h|
  {
    if n == 0 then 0 else ValTo(h, n - 1) + h[n - 1] as int * W(n - 1)
  }

  /** The limbs of f, as 64-bit integers. */
  function Wide(f: seq<int32>): (h: seq<int64>)
    ensures |h| == |f| && forall i :: 0 <= i < |h| ==> h[i] == f[i] as int64
  {
    seq(|f|, i requires 0 <= i < |f| => f[i] as int64)
  }

  /** The integer that f stands for. */
  ghost function FeVal(f: Fe): int { ValTo(Wide(f), 10) }

  lemma {:induction false} ValToUpdate(h: seq<int64>, n: nat, k: nat, x: int64)
    requires n <= |h| && k < |h|
    ensures ValTo(h[k := x], n) == ValTo(h, n) + if k < n then (x as int - h[k] as int) * W(k) else 0
  {
    if n > 0 {
      ValToUpdate(h, n - 1, k, x);
      if k == n - 1 { Regroup(x as int, h[k] as int, W(k)); }
    }
  }

  //// Weights of products

  /** Two odd limbs carry an extra factor of two. */
  function Both(i: nat, j: nat): int { if i % 2 == 1 && j % 2 == 1 then 2 else 1 }

  lemma {:induction false} WeightProduct(i: nat, j: nat)
    ensures W(i) * W(j) == Both(i, j) * W(i + j)
    decreases j
  {
    if j > 0 {
      WeightProduct(i, j - 1);
      hide W;
      assert W(j) == W(j - 1) * Radix(j - 1) && W(i + j) == W(i + j - 1) * Radix(i + j - 1) by { Step(j - 1); Step(i + j - 1); }
      MulAssoc(W(i), W(j - 1), Radix(j - 1));
      WeightStep(i, j - 1, W(i + j - 1));
    }
  }

  lemma Step(i: nat)
    ensures W(i + 1) == W(i) * Radix(i)
  {
  }

  lemma WeightStep(i: nat, j: nat, w: int)
    ensures Both(i, j) * w * Radix(j) == Both(i, j + 1) * (w * Radix(i + j))
  {
  }
}
