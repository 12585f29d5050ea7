/**
 Scalars as signed limbs of 21 bits, and the folds and carries that
 ed25519/src/sc.c applies to them.  The limb variables s0..s23 are the elements
 of one sequence; a limb is a 64-bit integer, so every step below is also a proof
 that it does not overflow.
 */
module Ed25519Limbs {
  import opened Arith
  import opened Congruence
  import opened Ints

  /** The order of the base point. */
  const L: int := 0x1000000000000000000000000000000014def9dea2f79cd65812631a5cf5d3ed

  /** The integer that a sequence of limbs stands for. */
  ghost function Val(s: seq<int64>): int {
    if s == [] then 0 else s[0] as int + 0x20_0000 * Val(s[1..])
  }

  /** The weight of limb i. */
  ghost function R(i: nat): (w: int)
    ensures w > 0
  {
    if i == 0 then 1 else 0x20_0000 * R(i - 1)
  }

  /** What x contributes in limb i. */
  ghost function Weigh(x: int, i: nat): int { x * R(i) }

  lemma {:induction false} ValUpdate(s: seq<int64>, i: nat, x: int64)
    requires i < |s|
    ensures Val(s[i := x]) == Val(s) + (x as int - s[i] as int) * R(i)
  {
    var t := s[i := x];
    if i == 0 {
      assert t[1..] == s[1..];
    } else {
      ValUpdate(s[1..], i - 1, x);
      assert t[1..] == s[1..][i - 1 := x];
      Scale(x as int - s[i] as int, R(i - 1));
    }
  }

  lemma Scale(d: int, p: int)
    ensures d * (0x20_0000 * p) == 0x20_0000 * (d * p)
  {
  }

  lemma Negate(d: int, p: int)
    ensures (0 - d) * p == -(d * p)
  {
  }

  /** |s[j]| <= m for lo <= j < hi. */
  ghost predicate Within(s: seq<int64>, lo: nat, hi: nat, m: int)
    requires hi <= |s|
  {
    forall j :: lo <= j < hi ==> -m <= s[j] as int <= m
  }

  //// One step

  /** Moves the part of limb i above 21 bits into limb i + 1, leaving a remainder
      in [0, 2^21), or in [-2^20, 2^20) when rounding. */
  method Carry(s: seq<int64>, i: nat, round: bool) returns (r: seq<int64>)
    requires i + 1 < |s|
    requires Within(s, i, i + 2, 0x4000_0000_0000_0000)
    ensures |r| == |s| && Val(r) == Val(s)
    ensures forall j :: 0 <= j < |s| && j != i && j != i + 1 ==> r[j] == s[j]
    ensures var h := if round then 0x10_0000 else 0;
            -h <= r[i] as int < 0x20_0000 - h
            && r[i + 1] as int == s[i + 1] as int + (s[i] as int + h) / 0x20_0000
  {
    var h: int64 := if round then 0x10_0000 else 0;
    var carry := (s[i] + h) / 0x20_0000;
    var t := s[i + 1 := s[i + 1] + carry];
    r := t[i := t[i] - carry * 0x20_0000];
    ValUpdate(s, i + 1, t[i + 1]);
    ValUpdate(t, i, r[i]);
    CarryKeeps(carry as int, R(i));
  }

  lemma CarryKeeps(c: int, p: int)
    ensures c * (0x20_0000 * p) + (-c * 0x20_0000) * p == 0
  {
    Scale(c, p);
    assert (-c * 0x20_0000) * p == -(c * (0x20_0000 * p));
  }

  /** s[i] += x * c */
  method AddMul(s: seq<int64>, i: nat, x: int64, c: int64, ghost m: int, ghost y: int) returns (r: seq<int64>)
    requires i < |s| && -m <= s[i] as int <= m && 0 <= y && -y <= x as int <= y
    requires 0 <= m && m + 997805 * y < 0x8000_0000_0000_0000 && -997805 <= c <= 997805
    ensures |r| == |s| && r == s[i := r[i]] && Val(r) == Val(s) + c as int * Weigh(x as int, i)
    ensures -m - 997805 * y <= r[i] as int <= m + 997805 * y
  {
    TermBound(x as int, c as int, y);
    r := s[i := s[i] + x * c];
    ValUpdate(s, i, r[i]);
    Swap(x as int, c as int, R(i));
  }

  lemma TermBound(x: int, c: int, y: int)
    requires 0 <= y && -y <= x <= y && -997805 <= c <= 997805
    ensures -997805 * y <= x * c <= 997805 * y
  {
    if c >= 0 {
      MulMono(x, y, c);
      MulMono(-y, x, c);
      MulMono(c, 997805, y);
    } else {
      MulMono(x, y, -c);
      MulMono(-y, x, -c);
      MulMono(-c, 997805, y);
    }
  }

  lemma Swap(x: int, c: int, p: int)
    ensures x * c * p == c * (x * p)
  {
  }

  /** Folding x out of limb i + 12 takes away a multiple of L. */
  ghost function AfterFold(v: int, x: int, i: nat): int { v - L * Weigh(x, i) }

  /** Replaces limb k by its equivalent twelve limbs lower. */
  method Fold(s: seq<int64>, k: nat, ghost m: int, ghost y: int) returns (r: seq<int64>)
    requires 12 <= k < |s|
    requires Within(s, k - 12, k - 6, m) && -y <= s[k] as int <= y
    requires 0 <= m && 0 <= y && m + 997805 * y < 0x8000_0000_0000_0000
    ensures |r| == |s| && r[k] == 0
    ensures Val(r) == AfterFold(Val(s), s[k] as int, k - 12) && Congruent(Val(r), Val(s), L)
    ensures forall j :: 0 <= j < |s| && j != k && !(k - 12 <= j < k - 6) ==> r[j] == s[j]
    ensures Within(r, k - 12, k - 6, m + 997805 * y)
  {
    var x := s[k];
    var t := FoldInto(s, k - 12, x, m, y);
    r := t[k := 0];
    ValUpdate(t, k, 0);
    FoldIdentity(x as int, k - 12);
    hide Val, R, Folded;
    Negate(x as int, R(k));
    hide Weigh, Congruent;
    Less(Val(r), Val(s), Weigh(x as int, k - 12), L);
  }

  /** Adds x, twelve limbs up, to the six limbs from i on. */
  method FoldInto(s: seq<int64>, i: nat, x: int64, ghost m: int, ghost y: int) returns (r: seq<int64>)
    requires i + 6 <= |s| && Within(s, i, i + 6, m) && -y <= x as int <= y
    requires 0 <= m && 0 <= y && m + 997805 * y < 0x8000_0000_0000_0000
    ensures |r| == |s| && Within(r, i, i + 6, m + 997805 * y)
    ensures forall j :: 0 <= j < |s| && !(i <= j < i + 6) ==> r[j] == s[j]
    ensures Val(r) == Val(s) + Folded(x as int, i)
  {
    hide Val, R, Weigh;
    var a := AddMul(s, i, x, 666643, m, y);
    var b := AddMul(a, i + 1, x, 470296, m, y);
    var c := AddMul(b, i + 2, x, 654183, m, y);
    var d := AddMul(c, i + 3, x, -997805, m, y);
    var e := AddMul(d, i + 4, x, 136657, m, y);
    r := AddMul(e, i + 5, x, -683901, m, y);
  }

  ghost function Folded(x: int, i: nat): int {
    666643 * Weigh(x, i) + 470296 * Weigh(x, i + 1) + 654183 * Weigh(x, i + 2) - 997805 * Weigh(x, i + 3)
    + 136657 * Weigh(x, i + 4) - 683901 * Weigh(x, i + 5)
  }

  lemma Up(x: int, i: nat)
    ensures Weigh(x, i + 1) == 0x20_0000 * Weigh(x, i)
  {
    Scale(x, R(i));
  }

  /** 2^252 is congruent to the six folding constants. */
  lemma FoldIdentity(x: int, i: nat)
    ensures Folded(x, i) + L * Weigh(x, i) == Weigh(x, i + 12)
  {
    hide Weigh;
    Up(x, i); Up(x, i + 1); Up(x, i + 2); Up(x, i + 3); Up(x, i + 4); Up(x, i + 5);
    Up(x, i + 6); Up(x, i + 7); Up(x, i + 8); Up(x, i + 9); Up(x, i + 10); Up(x, i + 11);
    TimesL(Weigh(x, i));
  }

  lemma TimesL(t: int)
    ensures L * t == 0x1000000000000000000000000000000014def9dea2f79cd65812631a5cf5d3ed * t
  {
  }
}
