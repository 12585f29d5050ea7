/** fe_frombytes of ed25519/src/fe.c. */
module Ed25519FromBytes {
  import opened Arith
  import opened Bytes
  import opened Congruence
  import opened Ints
  import opened Ed25519Field
  import opened Ed25519Carry
  import opened Ed25519FieldMul
  import Seqs

  /** The bit at which limb n starts. */
  function Bit(n: nat): nat
    requires n <= 10
  {
    if n == 0 then 0 else if n == 1 then 26 else if n == 2 then 51 else if n == 3 then 77
    else if n == 4 then 102 else if n == 5 then 128 else if n == 6 then 153 else if n == 7 then 179
    else if n == 8 then 204 else if n == 9 then 230 else 255
  }

  /** The width of limb n. */
  function Width(n: nat): nat { if n % 2 == 0 then 26 else 25 }

  lemma BitStep(n: nat)
    requires n < 10
    ensures Bit(n + 1) == Bit(n) + Width(n)
  {
  }

  lemma {:induction false} WeightPow(n: nat)
    requires n <= 10
    ensures W(n) == Pow2(Bit(n))
  {
    if n > 0 {
      WeightPow(n - 1);
      Step(n - 1);
      PowRadix();
      BitStep(n - 1);
      hide Pow2, W, Bit;
      Pow2Add(Bit(n - 1), Width(n - 1));
    }
  }

  lemma PowRadix()
    ensures Pow2(25) == 0x200_0000 && Pow2(26) == 0x400_0000
  {
    Pow2Small();
    Pow2Add(16, 8);
    assert Pow2(25) == 2 * Pow2(24);
  }

  lemma {:induction false} ValToPrefix(h: seq<int64>, k: seq<int64>, n: nat)
    requires n <= |h| && n <= |k| && h[..n] == k[..n]
    ensures ValTo(h, n) == ValTo(k, n)
  {
    if n > 0 {
      assert h[..n - 1] == h[..n][..n - 1] && k[..n - 1] == k[..n][..n - 1];
      assert h[n - 1] == h[..n][n - 1] && k[n - 1] == k[..n][n - 1];
      ValToPrefix(h, k, n - 1);
    }
  }

  lemma ValToAppend(h: seq<int64>, x: int64)
    ensures ValTo(h + [x], |h| + 1) == ValTo(h, |h|) + x as int * W(|h|)
  {
    var k := h + [x];
    assert k[..|h|] == h[..|h|];
    ValToPrefix(h, k, |h|);
  }

  /** The next limb is a run of bytes a, ..., b - 1, shifted left by k. */
  method LoadPiece(s: seq<byte>, h: seq<int64>, a: nat, b: nat, k: nat) returns (r: seq<int64>)
    requires a <= b <= |s| && b <= a + 4 && k + 8 * (b - a) <= 32
    requires |h| < 10 && Bit(|h|) + k == 8 * a && ValTo(h, |h|) == LoadLE(s[..a]) && AllAbs(h, 0x1_0000_0000)
    ensures |r| == |h| + 1 && ValTo(r, |r|) == LoadLE(s[..b]) && AllAbs(r, 0x1_0000_0000)
  {
    var y := LoadLE(s[a..b]);
    PieceValue(s, a, b, k, |h|, y);
    hide LoadLE, ValTo, W;
    var x := (Pow2(k) * y) as int64;
    r := h + [x];
    ValToAppend(h, x);
  }

  lemma PieceValue(s: seq<byte>, a: nat, b: nat, k: nat, n: nat, y: nat)
    requires a <= b <= |s| && k + 8 * (b - a) <= 32 && n < 10 && Bit(n) + k == 8 * a && y == LoadLE(s[a..b])
    ensures LoadLE(s[..b]) == LoadLE(s[..a]) + Pow2(k) * y * W(n)
    ensures 0 <= Pow2(k) * y <= 0x1_0000_0000
  {
    hide Pow2, LoadLE, W;
    Seqs.SplitAt(s[..b], a);
    assert s[..b][..a] == s[..a] && s[..b][a..] == s[a..b];
    LoadConcat(s[..a], s[a..b]);
    LoadBelow(s[a..b]);
    WeightPow(n);
    Pow2Add(Bit(n), k);
    Pow2Add(k, 8 * (b - a));
    Pow2Monotone(k + 8 * (b - a), 32);
    Pow2Small();
    ScaledPiece(Pow2(k), y, Pow2(8 * (b - a)), W(n));
  }

  lemma ScaledPiece(p: nat, y: nat, m: nat, w: int)
    requires y < m
    ensures 0 <= p * y <= p * m && p * y * w == w * p * y
  {
    MulMono(y, m, p);
    MulAssoc(w, p, y);
  }

  /** The last limb drops the top bit. */
  method LoadTop(s: seq<byte>, h: seq<int64>) returns (r: seq<int64>)
    requires |s| == 32 && |h| == 9 && ValTo(h, 9) == LoadLE(s[..29]) && AllAbs(h, 0x1_0000_0000)
    ensures |r| == 10 && ValTo(r, 10) == Bits(LoadLE(s), 0, 255) && AllAbs(r, 0x1_0000_0000)
  {
    var y := Bits(LoadLE(s[29..]), 0, 23);
    TopValue(s, y);
    BitsBelow(LoadLE(s[29..]), 0, 23);
    Pow2Monotone(23, 25);
    PowRadix();
    hide LoadLE, ValTo, W, Bits, Pow2;
    var x := (4 * y) as int64;
    r := h + [x];
    ValToAppend(h, x);
  }

  lemma TopValue(s: seq<byte>, y: nat)
    requires |s| == 32 && y == Bits(LoadLE(s[29..]), 0, 23)
    ensures Bits(LoadLE(s), 0, 255) == LoadLE(s[..29]) + 4 * y * W(9)
  {
    hide Pow2, LoadLE, W, Bits;
    Seqs.SplitAt(s, 29);
    LoadConcat(s[..29], s[29..]);
    LoadBelow(s[..29]);
    WeightPow(9);
    TopNumber(LoadLE(s), LoadLE(s[..29]), LoadLE(s[29..]), y, 8 * |s[..29]|, 23, W(9));
  }

  // The exponents are parameters so that the solver does not unfold their powers.
  lemma TopNumber(n: nat, low: nat, top: nat, y: nat, a: nat, b: nat, w: nat)
    requires 2 <= a && w == Pow2(a - 2)
    requires low < Pow2(a) && n == low + Pow2(a) * top && y == Bits(top, 0, b)
    ensures Bits(n, 0, a + b) == low + 4 * y * w
  {
    hide Pow2, Bits, Shr;
    assert Pow2(a) == w * 4 by { FourTimes(a); }
    SplitAtBit(top, b);
    Pow2Add(a, b);
    TopSplit(low, w, Pow2(a), y, Pow2(b), Shr(top, b));
    SplitUnique(n, a + b, low + Pow2(a) * y, Shr(top, b));
  }

  lemma FourTimes(a: nat)
    requires 2 <= a
    ensures Pow2(a) == Pow2(a - 2) * 4
  {
    Pow2Add(a - 2, 2);
    assert Pow2(2) == 4;
  }

  lemma TopSplit(low: nat, w: nat, p: nat, y: nat, q: nat, z: nat)
    requires low < p && y < q && p == w * 4
    ensures low + p * (y + q * z) == low + p * y + p * q * z && low + p * y < p * q
    ensures 4 * y * w == p * y
  {
    Distribute(p, y, q * z);
    MulAssoc(p, q, z);
    MulMono(y + 1, q, p);
    assert (y + 1) * p == p * y + p && q * p == p * q;
  }

  /** fe_frombytes: the low 255 bits, as a field element. */
  method FeFromBytes(s: seq<byte>) returns (r: Fe)
    requires |s| == 32
    ensures Tight(r) && Congruent(FeVal(r), Bits(LoadLE(s), 0, 255), P)
  {
    var h := LoadLimbs(s);
    hide ValTo, Congruent, Bits, LoadLE;
    ghost var c, v := 0, ValTo(h, 10);
    h, c := Wrap(h);
    var k := SpreadCarries(h);
    r := Narrow(k);
  }

  method LoadLimbs(s: seq<byte>) returns (h: seq<int64>)
    requires |s| == 32
    ensures |h| == 10 && ValTo(h, 10) == Bits(LoadLE(s), 0, 255) && AllAbs(h, 0x1_0000_0000)
  {
    assert s[..0] == [];
    h := [];
    hide ValTo, LoadLE, AllAbs, Bits;
    assert ValTo(h, 0) == 0 == LoadLE(s[..0]) && AllAbs(h, 0x1_0000_0000) by { Empty(s); }
    h := LoadPiece(s, h, 0, 4, 0);
    h := LoadPiece(s, h, 4, 7, 6);
    h := LoadPiece(s, h, 7, 10, 5);
    h := LoadPiece(s, h, 10, 13, 3);
    h := LoadPiece(s, h, 13, 16, 2);
    h := LoadPiece(s, h, 16, 20, 0);
    h := LoadPiece(s, h, 20, 23, 7);
    h := LoadPiece(s, h, 23, 26, 5);
    h := LoadPiece(s, h, 26, 29, 4);
    h := LoadTop(s, h);
  }

  lemma Empty(s: seq<byte>)
    ensures ValTo([], 0) == 0 == LoadLE(s[..0]) && AllAbs([], 0x1_0000_0000)
  {
  }

  /** Carries out of limbs 1, 3, 5, 7, then 0, 2, 4, 6, 8. */
  method SpreadCarries(h: seq<int64>) returns (r: seq<int64>)
    requires |h| == 10 && AllAbs(h, 0x2_0000_0000) && Abs(h[9] as int, 0x100_0000)
    ensures |r| == 10 && Reduced(r) && ValTo(r, 10) == ValTo(h, 10)
  {
    hide ValTo;
    r := Carry(h, 1);
    r := Carry(r, 3);
    r := Carry(r, 5);
    r := Carry(r, 7);
    r := Carry(r, 0);
    r := Carry(r, 2);
    r := Carry(r, 4);
    r := Carry(r, 6);
    r := Carry(r, 8);
  }
}
