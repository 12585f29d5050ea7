/**
 sc_reduce and sc_muladd of ed25519/src/sc.c: bytes to limbs, products, reduction
 mod L and back to bytes.  A shift right followed by a mask is Bits; the `|` of a
 stored byte joins disjoint bits and is written as a sum.
 */
module Ed25519Scalar {
  import opened Arith
  import opened Bytes
  import opened Ints
  import opened Ed25519Limbs
  import opened Ed25519Passes
  import opened Ed25519Reduce

  //// Loading limbs

  /** The limbs are the 21-bit fields of x, from bit 0 on. */
  ghost predicate Fields(l: seq<int64>, x: nat) {
    forall j :: 0 <= j < |l| ==> l[j] as int == Bits(x, 21 * j, 21)
  }

  /** 2097151 & (load_n(s + i) >> r), where load_n reads n bytes. */
  method LoadLimb(s: seq<byte>, l: seq<int64>, i: nat, n: nat, r: nat) returns (k: seq<int64>)
    requires i + n <= |s| && n <= 4 && r + 21 <= 8 * n && 8 * i + r == 21 * |l|
    requires Fields(l, LoadLE(s))
    ensures |k| == |l| + 1 && Fields(k, LoadLE(s))
  {
    var x := LoadLE(s[i..i + n]);
    LoadField(s, i, n);
    BitsOfBits(LoadLE(s), 8 * i, 8 * n, r, 21);
    BitsBelow(x, r, 21);
    Pow21();
    hide Bits, LoadLE, Pow2;
    k := l + [Bits(x, r, 21) as int64];
  }

  lemma Pow21()
    ensures Pow2(21) == 0x20_0000
  {
    Pow2Small();
    Pow2Add(16, 5);
    assert Pow2(5) == 32;
  }

  /** Limbs that are the fields of x stand for x. */
  lemma {:induction false} FieldsVal(l: seq<int64>, x: nat, j: nat)
    requires j < |l| && Fields(l[..|l| - 1], x) && l[|l| - 1] as int == Shr(x, 21 * (|l| - 1))
    ensures Val(l[j..]) == Shr(x, 21 * j)
    decreases |l| - j
  {
    if j == |l| - 1 {
      assert l[j..] == [l[j]];
    } else {
      FieldsVal(l, x, j + 1);
      assert l[j..][1..] == l[j + 1..] && l[j] == l[..|l| - 1][j];
      ShrSplit(x, 21 * j, 21);
      Pow21();
      assert 21 * j + 21 == 21 * (j + 1);
    }
  }

  lemma LastBits(s: seq<byte>, i: nat, r: nat)
    requires i + 4 == |s| && r <= 32
    ensures Shr(LoadLE(s[i..]), r) == Shr(LoadLE(s), 8 * i + r) < Pow2(32 - r) <= 0x1_0000_0000
  {
    LoadBelow(s[i..]);
    ShrBelow(LoadLE(s[i..]), r, 32 - r);
    LoadDrop(s, i);
    ShrShr(LoadLE(s), 8 * i, r);
    Pow2Small();
    Pow2Monotone(32 - r, 32);
  }

  /** load_4(s + i) >> r, the last bits of s. */
  method LoadLast(s: seq<byte>, l: seq<int64>, i: nat, r: nat) returns (k: seq<int64>)
    requires i + 4 == |s| && r <= 32 && 8 * i + r == 21 * |l|
    requires Fields(l, LoadLE(s))
    ensures |k| == |l| + 1 && k[..|l|] == l && 0 <= k[|l|] as int < Pow2(32 - r)
    ensures Val(k) == LoadLE(s)
  {
    LastBits(s, i, r);
    hide LoadLE, Pow2, Shr, Fields;
    var x := LoadLE(s[i..]);
    k := l + [Shr(x, r) as int64];
    assert k[..|l|] == l && k[0..] == k;
    FieldsVal(k, LoadLE(s), 0);
    ShrZeroBits(LoadLE(s));
  }

  //// Storing limbs

  lemma {:induction false} NonNegative(l: seq<int64>)
    requires forall j :: 0 <= j < |l| ==> 0 <= l[j]
    ensures 0 <= Val(l)
  {
    if l != [] { NonNegative(l[1..]); }
  }

  /** Digits are the fields of the number they stand for. */
  lemma {:induction false} DigitsFields(l: seq<int64>, x: nat, n: nat)
    requires n < |l| && Digits(l, |l| - 1) && 0 <= l[|l| - 1] && Val(l) == x
    ensures Val(l[n..]) == Shr(x, 21 * n) && Fields(l[..n], x)
  {
    if n == 0 {
      ShrZeroBits(x);
      assert l[0..] == l;
    } else {
      DigitsFields(l, x, n - 1);
      NonNegative(l[n..]);
      NextDigit(l, x, n - 1);
      assert l[..n] == l[..n - 1] + [l[n - 1]];
    }
  }

  lemma NextDigit(l: seq<int64>, x: nat, n: nat)
    requires n < |l| && 0 <= l[n] < 0x20_0000 && 0 <= Val(l[n + 1..]) && Val(l[n..]) == Shr(x, 21 * n)
    ensures l[n] as int == Bits(x, 21 * n, 21) && Val(l[n + 1..]) == Shr(x, 21 * (n + 1))
  {
    var y := Shr(x, 21 * n);
    assert l[n..][1..] == l[n + 1..];
    Pow21();
    SplitUnique(y, 21, l[n] as nat, Val(l[n + 1..]));
    ShrShr(x, 21 * n, 21);
    ShrZeroBits(y);
    assert 21 * n + 21 == 21 * (n + 1);
  }

  /** The twelve limbs of x < 2^253. */
  ghost predicate Stored(l: seq<int64>, x: nat) {
    |l| == 12 && Fields(l[..11], x) && l[11] as int == Shr(x, 231)
  }

  /** (unsigned char) (s_i >> r) */
  method StoreByte(out: seq<byte>, l: seq<int64>, i: nat, r: nat, ghost x: nat) returns (b: seq<byte>)
    requires Stored(l, x) && BytesOf(out, x)
    requires i < 12 && 21 * i + r == 8 * |out| && (i < 11 ==> r + 8 <= 21)
    ensures |b| == |out| + 1 && BytesOf(b, x)
  {
    assert i < 11 ==> l[i] == l[..11][i];
    hide Fields, BytesOf;
    FieldIsNatural(l, i, x);
    var v := l[i] as int;
    ByteBits(v, i, r, x);
    BitsBelow(v, r, 8);
    Pow2Small();
    hide Bits, Shr;
    var c := Bits(v, r, 8) as byte;
    Appended(out, c, x);
    b := out + [c];
  }

  lemma FieldIsNatural(l: seq<int64>, i: nat, x: nat)
    requires Stored(l, x) && i < 12
    ensures l[i] as int == if i == 11 then Shr(x, 231) else Bits(x, 21 * i, 21)
  {
    assert i < 11 ==> l[i] == l[..11][i];
  }

  lemma ByteBits(v: nat, i: nat, r: nat, x: nat)
    requires i < 12 && (i < 11 ==> r + 8 <= 21)
    requires v == if i == 11 then Shr(x, 231) else Bits(x, 21 * i, 21)
    ensures Bits(v, r, 8) == Bits(x, 21 * i + r, 8)
  {
    if i == 11 { ShrShr(x, 231, r); } else { BitsOfBits(x, 21 * i, 21, r, 8); }
  }

  /** (unsigned char) ((s_i >> r) | (s_(i+1) << (21 - r))) */
  method StoreJoined(out: seq<byte>, l: seq<int64>, i: nat, r: nat, ghost x: nat) returns (b: seq<byte>)
    requires Stored(l, x) && BytesOf(out, x)
    requires i < 11 && 13 < r < 21 && 21 * i + r == 8 * |out|
    ensures |b| == |out| + 1 && BytesOf(b, x)
  {
    hide BytesOf;
    FieldIsNatural(l, i, x);
    FieldIsNatural(l, i + 1, x);
    var lo, hi := l[i] as int, l[i + 1] as int;
    JoinedBits(lo, hi, i, r, x);
    hide Bits, Shr, Pow2;
    var c := ((Shr(lo, r) + Pow2(21 - r) * hi) % 256) as byte;
    Appended(out, c, x);
    b := out + [c];
  }

  lemma JoinedBits(lo: nat, hi: nat, i: nat, r: nat, x: nat)
    requires i < 11 && 13 < r < 21 && lo == Bits(x, 21 * i, 21)
    requires hi == if i == 10 then Shr(x, 231) else Bits(x, 21 * (i + 1), 21)
    ensures (Shr(lo, r) + Pow2(21 - r) * hi) % 256 == Bits(x, 21 * i + r, 8)
  {
    if i < 10 {
      Straddle(x, 21 * i, 21, r, 21);
    } else {
      Straddle(x, 210, 21, r, 8);
      StraddleTop(Shr(lo, r), hi, 21 - r, Bits(x, 231, 8));
    }
  }

  lemma StraddleTop(a: nat, h: nat, u: nat, y: nat)
    requires y == Bits(h, 0, 8)
    ensures (a + Pow2(u) * h) % 256 == (a + Pow2(u) * y) % 256
  {
    SplitAtBit(h, 8);
    Pow2Small();
    hide Pow2, Bits, Shr;
    var p, z := Pow2(u), Shr(h, 8);
    Distribute(p, y, 256 * z);
    MulAssoc(256, p, z);
    MulAssoc(p, 256, z);
    AddMultiple(a + p * y, p * z, 256);
  }
}
