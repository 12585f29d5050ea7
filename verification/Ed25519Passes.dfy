/**
 The passes of ed25519/src/sc.c over 24 limbs.  The unrolled lines of the source
 are loops over the limb index here, in the same order.
 */
module Ed25519Passes {
  import opened Arith
  import opened Congruence
  import opened Ints
  import opened Ed25519Limbs

  /** The bound on a limb after n folds. */
  ghost function Grown(m: int, d: int, n: nat): int { if n == 0 then m else Grown(m, d, n - 1) + d }

  lemma {:induction false} GrownBound(m: int, d: int, n: nat)
    requires n <= 6 && 0 <= d && 0 <= m
    ensures 0 <= Grown(m, d, n) <= Grown(m, d, 6) == m + 6 * d
    decreases 6 - n
  {
    if n < 6 { GrownBound(m, d, n + 1); }
    GrownNonNegative(m, d, n);
    assert Grown(m, d, 6) == Grown(m, d, 4) + 2 * d;
    assert Grown(m, d, 4) == Grown(m, d, 2) + 2 * d;
    assert Grown(m, d, 1) == m + d;
  }

  lemma {:induction false} GrownNonNegative(m: int, d: int, n: nat)
    requires 0 <= d && 0 <= m
    ensures 0 <= Grown(m, d, n)
  {
    if n > 0 { GrownNonNegative(m, d, n - 1); }
  }

  /** Folds limbs hi, hi - 1, ..., lo. */
  method FoldPass(s: seq<int64>, lo: nat, hi: nat, ghost m: int, ghost y: int) returns (r: seq<int64>)
    requires 12 <= lo <= hi < |s| && hi < lo + 6
    requires Within(s, lo - 12, hi - 6, m) && Within(s, lo, hi + 1, y)
    requires 0 <= m && 0 <= y && m + 6 * (997805 * y) < 0x8000_0000_0000_0000
    ensures |r| == |s| && Within(r, lo - 12, hi - 6, m + 6 * (997805 * y))
    ensures forall j :: lo <= j <= hi ==> r[j] == 0
    ensures forall j :: 0 <= j < |s| && !(lo <= j <= hi) && !(lo - 12 <= j < hi - 6) ==> r[j] == s[j]
    ensures Congruent(Val(r), Val(s), L)
  {
    ghost var d := 997805 * y;
    ghost var b := m;
    assert Grown(m, d, 0) == m;
    hide Val, Congruent, AfterFold, Within;
    assert Within(s, lo - 12, hi - 6, b);
    r := s;
    var k := hi;
    Reflexive(Val(s), L);
    while k >= lo
      invariant lo - 1 <= k <= hi && |r| == |s|
      invariant b == Grown(m, d, hi - k) && Within(r, lo - 12, hi - 6, b)
      invariant forall j :: k < j <= hi ==> r[j] == 0
      invariant forall j :: 0 <= j < |s| && !(k < j <= hi) && !(lo - 12 <= j < hi - 6) ==> r[j] == s[j]
      invariant Congruent(Val(r), Val(s), L)
    {
      GrownBound(m, d, hi - k + 1);
      GrownBound(m, d, hi - k);
      ghost var v := Val(r);
      r := Fold(r, k, b, y);
      Transitive(Val(r), v, Val(s), L);
      b := b + d;
      k := k - 1;
    }
    GrownBound(m, d, hi - k);
  }

  /** What a rounding pass over lo, lo + 2, ... has done below limb i. */
  ghost predicate Rounded(s: seq<int64>, r: seq<int64>, lo: nat, i: nat, c: int)
    requires i <= |s| == |r|
  {
    forall j :: lo <= j < i ==>
      if (j - lo) % 2 == 0 then -0x10_0000 <= r[j] as int < 0x10_0000
      else -c <= r[j] as int - s[j] as int <= c
  }

  /** Rounding carries out of limbs lo, lo + 2, ..., hi. */
  method RoundPass(s: seq<int64>, lo: nat, hi: nat, ghost m: int, ghost c: int) returns (r: seq<int64>)
    requires lo <= hi && hi + 1 < |s| && (hi - lo) % 2 == 0
    requires Within(s, lo, hi + 2, m) && m + 0x10_0000 <= 0x20_0000 * c && m <= 0x4000_0000_0000_0000
    ensures |r| == |s| && Rounded(s, r, lo, hi + 2, c) && Val(r) == Val(s)
    ensures forall j :: 0 <= j < |s| && !(lo <= j < hi + 2) ==> r[j] == s[j]
  {
    hide Val;
    r := s;
    var i := lo;
    while i <= hi
      invariant lo <= i <= hi + 2 && (i - lo) % 2 == 0 && |r| == |s|
      invariant Rounded(s, r, lo, i, c) && Val(r) == Val(s)
      invariant forall j :: 0 <= j < |s| && !(lo <= j < i) ==> r[j] == s[j]
    {
      r := Carry(r, i, true);
      i := i + 2;
    }
  }

  /** Limbs below i are in [0, 2^21). */
  ghost predicate Digits(s: seq<int64>, i: nat)
    requires i <= |s|
  {
    forall j :: 0 <= j < i ==> 0 <= s[j] as int < 0x20_0000
  }

  /** Floor carries out of limbs 0, 1, ..., n - 1. */
  method FloorPass(s: seq<int64>, n: nat, ghost m: int) returns (r: seq<int64>)
    requires 0 < n < |s| && Within(s, 0, n + 1, m) && 4 <= m <= 0x2000_0000_0000_0000
    ensures |r| == |s| && Digits(r, n) && Val(r) == Val(s)
    ensures forall j :: n < j < |s| ==> r[j] == s[j]
  {
    hide Val;
    r := s;
    for i := 0 to n
      invariant |r| == |s| && Digits(r, i) && Val(r) == Val(s)
      invariant -2 * m <= r[i] as int <= 2 * m
      invariant forall j :: i < j < |s| ==> r[j] == s[j]
    {
      r := Carry(r, i, false);
    }
  }
}
