/**
 Reduction of 24 limbs to the canonical representative mod L: the part that
 sc_reduce and sc_muladd of ed25519/src/sc.c have in common.
 */
module Ed25519Reduce {
  import opened Arith
  import opened Congruence
  import opened Ints
  import opened Ed25519Limbs
  import opened Ed25519Passes

  /** Limbs from n on are zero. */
  ghost predicate Top(s: seq<int64>, n: nat)
    requires n <= |s|
  {
    forall j :: n <= j < |s| ==> s[j] == 0
  }

  //// Sizes of limb sequences

  lemma {:induction false} ValSplit(s: seq<int64>, n: nat)
    requires n <= |s|
    ensures Val(s) == Val(s[..n]) + R(n) * Val(s[n..])
  {
    if n == 0 {
      assert s[0..] == s;
    } else {
      ValSplit(s[1..], n - 1);
      assert s[1..][..n - 1] == s[..n][1..] && s[1..][n - 1..] == s[n..];
      MulAssoc(0x20_0000, R(n - 1), Val(s[n..]));
    }
  }

  lemma {:induction false} ValZero(s: seq<int64>)
    requires Top(s, 0)
    ensures Val(s) == 0
  {
    if s != [] { ValZero(s[1..]); }
  }

  /** A value with nothing above limb n. */
  lemma ValTop(s: seq<int64>, n: nat)
    requires n < |s| && Top(s, n + 1)
    ensures Val(s) == Val(s[..n]) + R(n) * s[n] as int
  {
    var t := s[n..];
    ValSplit(s, n);
    assert t[1..] == s[n + 1..] && t[0] == s[n];
    ValZero(s[n + 1..]);
    assert Val(t) == s[n] as int;
  }

  lemma {:induction false} ValBound(s: seq<int64>, m: int)
    requires 0 <= m && Within(s, 0, |s|, m)
    ensures R(|s|) >= 1 && -m * (R(|s|) - 1) <= 0x10_0000 * Val(s) <= m * (R(|s|) - 1)
  {
    if s != [] {
      ValBound(s[1..], m);
      var p := R(|s| - 1);
      assert m * (R(|s|) - 1) == 0x20_0000 * (m * (p - 1)) + m * 0x1F_FFFF by { Horner(m, p); }
      assert -m * (R(|s|) - 1) == -(m * (R(|s|) - 1)) && -m * (p - 1) == -(m * (p - 1));
    }
  }

  lemma Horner(m: int, p: int)
    ensures m * (0x20_0000 * p - 1) == 0x20_0000 * (m * (p - 1)) + m * 0x1F_FFFF
  {
    Distribute(m, 0x20_0000 * p, -1);
    Distribute(m, p, -1);
    Scale(m, p);
  }

  lemma {:induction false} ValRange(s: seq<int64>)
    requires Digits(s, |s|)
    ensures 0 <= Val(s) < R(|s|)
  {
    if s != [] { ValRange(s[1..]); }
  }

  lemma WeightValues()
    ensures R(0) == 1
    ensures R(11) == 0x8000000000000000000000000000000000000000000000000000000000
    ensures R(12) == 0x1000000000000000000000000000000000000000000000000000000000000000
  {
    assert R(3) == 0x8000_0000_0000_0000;
    assert R(6) == 0x40000000000000000000000000000000;
    assert R(9) == 0x200000000000000000000000000000000000000000000000;
    assert R(11) == 0x8000000000000000000000000000000000000000000000000000000000;
  }

  //// The two rounds of folding

  method FoldHigh(s: seq<int64>) returns (r: seq<int64>)
    requires |s| == 24 && Within(s, 0, 24, 0x4_0000_0000)
    ensures |r| == 24 && Within(r, 0, 18, 0x20_0000_0000) && Top(r, 18)
    ensures Congruent(Val(r), Val(s), L)
  {
    hide Val, Congruent;
    var a := FoldPass(s, 18, 23, 0x4_0000_0000, 0x4_0000_0000);
    var b := RoundPass(a, 6, 16, 0x200_0000_0000_0000, 0x10_0000_0001);
    r := RoundPass(b, 7, 15, 0x200_0010_0000_0001, 0x10_0001_0000);
  }

  method FoldMiddle(s: seq<int64>) returns (r: seq<int64>)
    requires |s| == 24 && Within(s, 0, 18, 0x20_0000_0000) && Top(s, 18)
    ensures |r| == 24 && Within(r, 0, 11, 0x80_0020_0000) && Within(r, 11, 12, 0x10_0000)
    ensures Within(r, 12, 13, 0x80_0020_0000) && Top(r, 13)
    ensures Congruent(Val(r), Val(s), L)
  {
    hide Val, Congruent;
    var a := FoldPass(s, 12, 17, 0x20_0000_0000, 0x20_0000_0000);
    var b := RoundPass(a, 0, 10, 0x1000_0000_0000_0000, 0x80_0000_0001);
    r := RoundPass(b, 1, 11, 0x1000_0080_0000_0001, 0x80_0008_0000);
  }

  /** Folding limb 12 after FoldMiddle leaves a value of at most 252 bits. */
  lemma MiddleBound(s: seq<int64>)
    requires |s| == 24 && Within(s, 0, 11, 0x80_0020_0000) && Within(s, 11, 12, 0x10_0000)
    requires Within(s, 12, 13, 0x80_0020_0000) && Top(s, 13)
    ensures var v := Val(s) - L * s[12] as int; -R(12) <= v < R(12)
  {
    var low, t := s[..11], s[..12];
    assert t[..11] == low;
    ValTop(s, 12);
    ValTop(t, 11);
    ValBound(low, 0x80_0020_0000);
    WeightValues();
    hide Val, R;
    var x, y := s[11] as int, s[12] as int;
    TimesL(y);
    assert -0x10_0000 <= x <= 0x10_0000;
    assert -0x80_0020_0000 <= y <= 0x80_0020_0000;
  }

  lemma SignDigit(low: int, p: int, q: int)
    requires 0 <= low < p && -p <= low + p * q < p
    ensures q == (if low + p * q < 0 then -1 else 0)
  {
    if q > 0 { MulMono(1, q, p); }
    if q < -1 { MulMono(q, -2, p); }
  }

  /** A number of 12 digits and a carry. */
  lemma CarryIsSign(s: seq<int64>)
    requires |s| == 24 && Digits(s, 12) && Top(s, 13)
    requires -R(12) <= Val(s) < R(12)
    ensures s[12] == (if Val(s) < 0 then -1 else 0)
  {
    ValTop(s, 12);
    ValRange(s[..12]);
    hide Val, R, Top, Digits;
    SignDigit(Val(s[..12]), R(12), s[12] as int);
  }

  lemma LastDigit(low: int, x: int)
    requires 0 <= low < 0x8000000000000000000000000000000000000000000000000000000000
    requires 0 <= low + 0x8000000000000000000000000000000000000000000000000000000000 * x < L
    ensures 0 <= x <= 0x20_0000
  {
  }

  lemma ValTrim(s: seq<int64>, n: nat)
    requires n <= |s| && Top(s, n)
    ensures Val(s[..n]) == Val(s)
  {
    ValSplit(s, n);
    ValZero(s[n..]);
  }

  /** The last limb after the last carries. */
  lemma LastLimb(s: seq<int64>)
    requires |s| == 24 && Digits(s, 11) && Top(s, 12) && 0 <= Val(s) < L
    ensures 0 <= s[11] <= 0x20_0000 && Val(s[..12]) == Val(s)
  {
    ValTop(s, 11);
    ValTrim(s, 12);
    ValRange(s[..11]);
    WeightValues();
    hide Val, R, Top, Digits;
    LastDigit(Val(s[..11]), s[11] as int);
  }

  /** The first folding of limb 12 leaves a sign in it. */
  method FoldTop(s: seq<int64>) returns (r: seq<int64>)
    requires |s| == 24 && Within(s, 0, 11, 0x80_0020_0000) && Within(s, 11, 12, 0x10_0000)
    requires Within(s, 12, 13, 0x80_0020_0000) && Top(s, 13)
    ensures |r| == 24 && Digits(r, 12) && Top(r, 13) && Congruent(Val(r), Val(s), L)
    ensures -R(12) <= Val(r) < R(12) && r[12] == (if Val(r) < 0 then -1 else 0)
  {
    MiddleBound(s);
    assert Weigh(s[12] as int, 0) == s[12] as int;
    hide Val, R, Weigh;
    var a := Fold(s, 12, 0x80_0020_0000, 0x80_0020_0000);
    hide Congruent;
    r := FloorPass(a, 12, 0x1000_0000_0000_0000);
    CarryIsSign(r);
  }

  /** The second folding adds L to a negative value. */
  method FoldSign(s: seq<int64>) returns (r: seq<int64>)
    requires |s| == 24 && Digits(s, 12) && Top(s, 13)
    requires -R(12) <= Val(s) < R(12) && s[12] == (if Val(s) < 0 then -1 else 0)
    ensures |r| == 24 && Digits(r, 11) && Top(r, 12) && Congruent(Val(r), Val(s), L)
    ensures 0 <= Val(r) < L
  {
    assert Weigh(s[12] as int, 0) == s[12] as int;
    WeightValues();
    hide Val, R, Weigh;
    var a := Fold(s, 12, 0x20_0000, 1);
    TimesL(s[12] as int);
    hide Congruent;
    r := FloorPass(a, 11, 0x1000_0000);
  }

  /** Twelve limbs below L that are congruent to the given ones. */
  method Reduce(s: seq<int64>) returns (r: seq<int64>)
    requires |s| == 24 && Within(s, 0, 24, 0x4_0000_0000)
    ensures |r| == 12 && Digits(r, 11) && 0 <= r[11] <= 0x20_0000
    ensures Val(r) == Val(s) % L
  {
    var a := FoldHigh(s);
    var b := FoldMiddle(a);
    var c := FoldTop(b);
    var d := FoldSign(c);
    r := d[..12];
    LastLimb(d);
    hide Val, Congruent;
    Transitive(Val(b), Val(a), Val(s), L);
    Transitive(Val(c), Val(b), Val(s), L);
    Transitive(Val(d), Val(c), Val(s), L);
    Residue(Val(d), Val(s), L);
  }
}
