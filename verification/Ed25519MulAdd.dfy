/** sc_reduce and sc_muladd of ed25519/src/sc.c, on byte buffers. */
module Ed25519MulAdd {
  import opened Arith
  import opened Bytes
  import opened Ints
  import opened Ed25519Limbs
  import opened Ed25519Passes
  import opened Ed25519Reduce
  import opened Ed25519Scalar

  //// Bytes in

  /** The first eleven limbs of a scalar. */
  method LoadLow(s: seq<byte>) returns (l: seq<int64>)
    requires |s| >= 32
    ensures |l| == 11 && Fields(l, LoadLE(s))
  {
    hide Fields, LoadLE;
    l := LoadFirst(s);
    l := LoadLimb(s, l, 2, 4, 5);
    l := LoadLimb(s, l, 5, 3, 2);
    l := LoadLimb(s, l, 7, 4, 7);
    l := LoadLimb(s, l, 10, 4, 4);
    l := LoadLimb(s, l, 13, 3, 1);
    l := LoadLimb(s, l, 15, 4, 6);
    l := LoadLimb(s, l, 18, 3, 3);
    l := LoadLimb(s, l, 21, 3, 0);
    l := LoadLimb(s, l, 23, 4, 5);
    l := LoadLimb(s, l, 26, 3, 2);
  }

  method LoadFirst(s: seq<byte>) returns (l: seq<int64>)
    requires |s| >= 3
    ensures |l| == 1 && Fields(l, LoadLE(s))
  {
    l := LoadLimb(s, [], 0, 3, 0);
  }

  /** The 24 limbs of 64 bytes. */
  method LoadWide(s: seq<byte>) returns (l: seq<int64>)
    requires |s| == 64
    ensures |l| == 24 && Val(l) == LoadLE(s) && Within(l, 0, 24, 0x4_0000_0000)
  {
    hide LoadLE, Val;
    l := LoadMiddle(s);
    ghost var low := l;
    LimbBounds(l, LoadLE(s));
    l := LoadLast(s, l, 60, 3);
    Pow2Last();
    forall j | 0 <= j < 24 ensures -0x4_0000_0000 <= l[j] as int <= 0x4_0000_0000 {
      assert j < 23 ==> l[j] == l[..23][j];
    }
  }

  method LoadMiddle(s: seq<byte>) returns (l: seq<int64>)
    requires |s| == 64
    ensures |l| == 23 && Fields(l, LoadLE(s))
  {
    hide Fields, LoadLE;
    l := LoadLow(s);
    l := LoadLimb(s, l, 28, 4, 7);
    l := LoadLimb(s, l, 31, 4, 4);
    l := LoadLimb(s, l, 34, 3, 1);
    l := LoadLimb(s, l, 36, 4, 6);
    l := LoadLimb(s, l, 39, 3, 3);
    l := LoadLimb(s, l, 42, 3, 0);
    l := LoadLimb(s, l, 44, 4, 5);
    l := LoadLimb(s, l, 47, 3, 2);
    l := LoadLimb(s, l, 49, 4, 7);
    l := LoadLimb(s, l, 52, 4, 4);
    l := LoadLimb(s, l, 55, 3, 1);
    l := LoadLimb(s, l, 57, 4, 6);
  }

  lemma LimbBounds(l: seq<int64>, x: nat)
    requires Fields(l, x)
    ensures Digits(l, |l|)
  {
    Pow21();
    forall j | 0 <= j < |l| ensures 0 <= l[j] as int < 0x20_0000 {
      BitsBelow(x, 21 * j, 21);
    }
  }

  lemma Pow2Last()
    ensures Pow2(25) == 0x200_0000 && Pow2(29) == 0x2000_0000
  {
    Pow21();
    Pow2Add(21, 4);
    Pow2Add(25, 4);
    assert Pow2(4) == 16;
  }

  /** Limbs of a 32-byte scalar: eleven of 21 bits and one of 25. */
  ghost predicate Scalar(l: seq<int64>) {
    |l| == 12 && forall j :: 0 <= j < 12 ==> 0 <= l[j] as int <= 0x1FF_FFFF
  }

  /** The 12 limbs of 32 bytes. */
  method LoadNarrow(s: seq<byte>) returns (l: seq<int64>)
    requires |s| == 32
    ensures Scalar(l) && Val(l) == LoadLE(s)
  {
    hide LoadLE, Val;
    l := LoadLow(s);
    LimbBounds(l, LoadLE(s));
    l := LoadLast(s, l, 28, 7);
    Pow2Last();
    forall j | 0 <= j < 12 ensures 0 <= l[j] as int <= 0x1FF_FFFF {
      assert j < 11 ==> l[j] == l[..11][j];
    }
  }

  //// Bytes out

  method StoreLow(l: seq<int64>, ghost x: nat) returns (b: seq<byte>)
    requires Stored(l, x)
    ensures |b| == 16 && BytesOf(b, x)
  {
    b := StoreByte([], l, 0, 0, x);
    hide Stored, BytesOf;
    b := StoreByte(b, l, 0, 8, x);
    b := StoreJoined(b, l, 0, 16, x);
    b := StoreByte(b, l, 1, 3, x);
    b := StoreByte(b, l, 1, 11, x);
    b := StoreJoined(b, l, 1, 19, x);
    b := StoreByte(b, l, 2, 6, x);
    b := StoreJoined(b, l, 2, 14, x);
    b := StoreByte(b, l, 3, 1, x);
    b := StoreByte(b, l, 3, 9, x);
    b := StoreJoined(b, l, 3, 17, x);
    b := StoreByte(b, l, 4, 4, x);
    b := StoreByte(b, l, 4, 12, x);
    b := StoreJoined(b, l, 4, 20, x);
    b := StoreByte(b, l, 5, 7, x);
    b := StoreJoined(b, l, 5, 15, x);
  }

  method StoreHigh(b0: seq<byte>, l: seq<int64>, ghost x: nat) returns (b: seq<byte>)
    requires Stored(l, x) && |b0| == 16 && BytesOf(b0, x)
    ensures |b| == 32 && BytesOf(b, x)
  {
    hide Stored, BytesOf;
    b := StoreByte(b0, l, 6, 2, x);
    b := StoreByte(b, l, 6, 10, x);
    b := StoreJoined(b, l, 6, 18, x);
    b := StoreByte(b, l, 7, 5, x);
    b := StoreByte(b, l, 7, 13, x);
    b := StoreByte(b, l, 8, 0, x);
    b := StoreByte(b, l, 8, 8, x);
    b := StoreJoined(b, l, 8, 16, x);
    b := StoreByte(b, l, 9, 3, x);
    b := StoreByte(b, l, 9, 11, x);
    b := StoreJoined(b, l, 9, 19, x);
    b := StoreByte(b, l, 10, 6, x);
    b := StoreJoined(b, l, 10, 14, x);
    b := StoreByte(b, l, 11, 1, x);
    b := StoreByte(b, l, 11, 9, x);
    b := StoreByte(b, l, 11, 17, x);
  }

  /** The 32 bytes of a reduced scalar. */
  method StoreScalar(l: seq<int64>) returns (b: seq<byte>)
    requires |l| == 12 && Digits(l, 11) && 0 <= l[11] && 0 <= Val(l) < L
    ensures |b| == 32 && LoadLE(b) == Val(l)
  {
    ghost var x: nat := Val(l);
    DigitsFields(l, x, 11);
    assert l[11..] == [l[11]];
    b := StoreLow(l, x);
    b := StoreHigh(b, l, x);
    hide Stored, Val;
    Pow2Of256(|b|);
    BytesOfLoad(b, x);
  }

  //// Products

  lemma {:induction false} WeightAdd(i: nat, j: nat)
    ensures R(i + j) == R(i) * R(j)
  {
    if i > 0 {
      WeightAdd(i - 1, j);
      MulAssoc(0x20_0000, R(i - 1), R(j));
    }
  }

  lemma ValPrefix(s: seq<int64>, n: nat)
    requires n < |s|
    ensures Val(s[..n + 1]) == Val(s[..n]) + R(n) * s[n] as int
  {
    var t := s[..n + 1];
    assert t[..n] == s[..n];
    ValTop(t, n);
  }

  lemma Monomial(x: int, y: int, p: int, q: int)
    ensures x * y * (p * q) == p * (x * (q * y))
  {
    assert x * (q * y) == x * y * q;
    assert p * (x * y * q) == x * y * (p * q);
  }

  /** |s[j]| <= 2^25 + n * 2^50, and nothing is negative. */
  ghost predicate Sums(s: seq<int64>, lo: nat, hi: nat, n: nat)
    requires hi <= |s|
  {
    forall j :: lo <= j < hi ==> 0 <= s[j] as int <= 0x200_0000 + n * 0x4_0000_0000_0000
  }

  /** One more product in a column. */
  lemma ColumnBound(s: seq<int64>, t: seq<int64>, k: nat, n: nat, z: int)
    requires |s| == |t| == 24 && k < 24 && Sums(s, 0, k, n + 1) && Sums(s, k, 24, n)
    requires 0 <= z <= 0x4_0000_0000_0000 && t == s[k := t[k]] && t[k] as int == s[k] as int + z
    ensures Sums(t, 0, k + 1, n + 1) && Sums(t, k + 1, 24, n)
  {
  }

  method AddProduct(s: seq<int64>, x: int64, y: int64, k: nat, ghost n: nat) returns (t: seq<int64>)
    requires |s| == 24 && k < 23 && s[23] == 0 && n < 12 && Sums(s, 0, k, n + 1) && Sums(s, k, 24, n)
    requires 0 <= x <= 0x1FF_FFFF && 0 <= y <= 0x1FF_FFFF
    ensures |t| == 24 && t[23] == 0 && Sums(t, 0, k + 1, n + 1) && Sums(t, k + 1, 24, n)
    ensures Val(t) == Val(s) + x as int * y as int * R(k)
  {
    hide Val, R;
    ProductBound(x as int, y as int);
    t := s[k := s[k] + x * y];
    ColumnBound(s, t, k, n, x as int * y as int);
    hide Sums;
    ValUpdate(s, k, t[k]);
  }

  method Row(s0: seq<int64>, a: seq<int64>, b: seq<int64>, i: nat) returns (s: seq<int64>)
    requires |s0| == 24 && Scalar(a) && Scalar(b) && i < 12
    requires Sums(s0, 0, 24, i) && s0[23] == 0
    ensures |s| == 24 && Sums(s, 0, 24, i + 1) && s[23] == 0
    ensures Val(s) == Val(s0) + R(i) * (a[i] as int * Val(b))
  {
    hide Val, R, Sums;
    SumsNone(s0, i);
    s := s0;
    ghost var p, x := R(i), a[i] as int;
    assert b[..0] == [] && b[..12] == b;
    assert Val(b[..0]) == 0 by { ValZero(b[..0]); }
    assert p * (x * 0) == 0;
    for j := 0 to 12
      invariant |s| == 24 && s[23] == 0 && Sums(s, 0, i + j, i + 1) && Sums(s, i + j, 24, i)
      invariant Val(s) == Val(s0) + p * (x * Val(b[..j]))
    {
      s := AddProduct(s, a[i], b[j], i + j, i);
      WeightAdd(i, j);
      ValPrefix(b, j);
      RowStep(x, b[j] as int, p, R(j), Val(b[..j]));
    }
    SumsAll(s, i);
  }

  lemma SumsNone(s: seq<int64>, i: nat)
    requires |s| == 24 && i < 12 && Sums(s, 0, 24, i)
    ensures Sums(s, 0, i, i + 1) && Sums(s, i, 24, i)
  {
  }

  lemma SumsAll(s: seq<int64>, i: nat)
    requires |s| == 24 && i < 12 && Sums(s, 0, i + 12, i + 1) && Sums(s, i + 12, 24, i)
    ensures Sums(s, 0, 24, i + 1)
  {
  }

  lemma ProductBound(x: int, y: int)
    requires 0 <= x <= 0x1FF_FFFF && 0 <= y <= 0x1FF_FFFF
    ensures 0 <= x * y <= 0x4_0000_0000_0000
  {
    MulMono(x, 0x1FF_FFFF, y);
  }

  lemma RowStep(x: int, y: int, p: int, q: int, v: int)
    ensures p * (x * v) + x * y * (p * q) == p * (x * (v + q * y))
  {
    Monomial(x, y, p, q);
    Distribute(x, v, q * y);
    Distribute(p, x * v, x * (q * y));
  }

  method Widen(c: seq<int64>) returns (s: seq<int64>)
    requires Scalar(c)
    ensures |s| == 24 && Sums(s, 0, 24, 0) && s[23] == 0 && Val(s) == Val(c)
  {
    var zeros: seq<int64> := seq(12, i => 0);
    s := c + zeros;
    ValSplit(s, 12);
    assert s[..12] == c && s[12..] == zeros;
    ValZero(zeros);
  }

  /** The 23 columns of a * b + c. */
  method Columns(a: seq<int64>, b: seq<int64>, c: seq<int64>) returns (s: seq<int64>)
    requires Scalar(a) && Scalar(b) && Scalar(c)
    ensures |s| == 24 && Sums(s, 0, 24, 12) && s[23] == 0
    ensures Val(s) == Val(a) * Val(b) + Val(c)
  {
    hide Val, R;
    s := Widen(c);
    assert a[..0] == [] && a[..12] == a;
    assert Val(a[..0]) == 0 by { ValZero(a[..0]); }
    for i := 0 to 12
      invariant |s| == 24 && Sums(s, 0, 24, i) && s[23] == 0
      invariant Val(s) == Val(a[..i]) * Val(b) + Val(c)
    {
      s := Row(s, a, b, i);
      ValPrefix(a, i);
      ColumnStep(Val(a[..i]), R(i), a[i] as int, Val(b));
    }
  }

  lemma ColumnStep(v: int, p: int, x: int, w: int)
    ensures (v + p * x) * w == v * w + p * (x * w)
  {
    MulAssoc(p, x, w);
    assert (v + p * x) * w == v * w + p * x * w;
  }

  //// The two operations

  /** sc_reduce: overwrites the first 32 bytes with the 64-byte number mod L. */
  method ScReduce(s: array<byte>)
    requires s.Length >= 64
    modifies s
    ensures LoadLE(s[..32]) == old(LoadLE(s[..64])) % L
    ensures s[32..] == old(s[32..])
  {
    var l := LoadWide(s[..64]);
    var r := Reduce(l);
    var b := StoreScalar(r);
    hide LoadLE, Val;
    Write(s, 0, b);
  }

  /** sc_muladd: writes (ab + c) mod L. */
  method ScMulAdd(s: array<byte>, at: nat, a: seq<byte>, b: seq<byte>, c: seq<byte>)
    requires at + 32 <= s.Length && |a| == 32 && |b| == 32 && |c| == 32
    modifies s
    ensures LoadLE(s[at..at + 32]) == (LoadLE(a) * LoadLE(b) + LoadLE(c)) % L
    ensures s[..at] == old(s[..at]) && s[at + 32..] == old(s[at + 32..])
  {
    var x := LoadNarrow(a);
    var y := LoadNarrow(b);
    var z := LoadNarrow(c);
    var r := MulAddLimbs(x, y, z);
    var out := StoreScalar(r);
    hide LoadLE, Val;
    Write(s, at, out);
  }

  method MulAddLimbs(a: seq<int64>, b: seq<int64>, c: seq<int64>) returns (r: seq<int64>)
    requires Scalar(a) && Scalar(b) && Scalar(c)
    ensures |r| == 12 && Digits(r, 11) && 0 <= r[11] <= 0x20_0000
    ensures Val(r) == (Val(a) * Val(b) + Val(c)) % L
  {
    hide Val;
    var s := Columns(a, b, c);
    var t := RoundPass(s, 0, 22, 0x40_0000_0000_0000, 0x2_0000_0001);
    var u := RoundPass(t, 1, 21, 0x40_0002_0000_0001, 0x2_0000_2000);
    r := Reduce(u);
  }

  method Write(s: array<byte>, at: nat, b: seq<byte>)
    requires at + |b| <= s.Length
    modifies s
    ensures s[at..at + |b|] == b && s[..at] == old(s[..at]) && s[at + |b|..] == old(s[at + |b|..])
  {
    for i := 0 to |b|
      invariant s[at..at + i] == b[..i] && s[..at] == old(s[..at]) && s[at + |b|..] == old(s[at + |b|..])
    {
      s[at + i] := b[i];
      assert s[at..at + i + 1] == s[at..at + i] + [b[i]];
    }
  }
}
