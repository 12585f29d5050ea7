/**
 fe_tobytes, fe_isnegative and fe_isnonzero of ed25519/src/fe.c.  The `|` of a
 stored byte joins disjoint bits and is written as a sum.
 */
module Ed25519FieldBytes {
  import opened Arith
  import opened Bytes
  import opened Congruence
  import opened Ints
  import opened Ed25519Field
  import opened Ed25519Carry
  import opened Ed25519FieldMul
  import opened Ed25519FromBytes
  import opened Ed25519ToBytes

  /** The limbs of a canonical number v. */
  ghost predicate Canonical(f: Fe, v: nat) { FeDigits(f, 10) && FeVal(f) == v }

  /** (unsigned char) (h_i >> r) */
  method StoreByte(out: seq<byte>, f: Fe, i: nat, r: nat, ghost v: nat) returns (b: seq<byte>)
    requires Canonical(f, v) && BytesOf(out, v)
    requires i < 10 && Bit(i) + r == 8 * |out| && (i < 9 ==> r + 8 <= Width(i))
    ensures |b| == |out| + 1 && BytesOf(b, v)
  {
    DigitIsField(f, v, i);
    var x := f[i] as int;
    hide Canonical, BytesOf, Bit, Width;
    if i < 9 { BitsOfBits(v, Bit(i), Width(i), r, 8); } else { ShrShr(v, Bit(i), r); }
    BitsBelow(x, r, 8);
    Pow2Small();
    assert Bits(x, r, 8) == Bits(v, Bit(i) + r, 8);
    hide Bits, Shr, Pow2;
    var c := Bits(x, r, 8) as byte;
    Appended(out, c, v);
    b := out + [c];
  }

  /** (unsigned char) ((h_i >> r) | (h_(i+1) << k)) */
  method StoreJoined(out: seq<byte>, f: Fe, i: nat, r: nat, k: nat, ghost v: nat) returns (b: seq<byte>)
    requires Canonical(f, v) && BytesOf(out, v)
    requires i < 9 && Bit(i) + r == 8 * |out| && r + k == Width(i)
    ensures |b| == |out| + 1 && BytesOf(b, v)
  {
    DigitIsField(f, v, i);
    DigitIsField(f, v, i + 1);
    BitStep(i);
    var lo, hi := f[i] as int, f[i + 1] as int;
    Straddle(v, Bit(i), Width(i), r, Width(i + 1));
    hide Canonical, BytesOf, Bits, Shr, Pow2, Bit, Width;
    var c := ((Shr(lo, r) + Pow2(k) * hi) % 256) as byte;
    Appended(out, c, v);
    b := out + [c];
  }

  method StoreLow(f: Fe, ghost v: nat) returns (b: seq<byte>)
    requires Canonical(f, v)
    ensures |b| == 16 && BytesOf(b, v)
  {
    b := StoreByte([], f, 0, 0, v);
    hide Canonical, BytesOf;
    b := StoreByte(b, f, 0, 8, v);
    b := StoreByte(b, f, 0, 16, v);
    b := StoreJoined(b, f, 0, 24, 2, v);
    b := StoreByte(b, f, 1, 6, v);
    b := StoreByte(b, f, 1, 14, v);
    b := StoreJoined(b, f, 1, 22, 3, v);
    b := StoreByte(b, f, 2, 5, v);
    b := StoreByte(b, f, 2, 13, v);
    b := StoreJoined(b, f, 2, 21, 5, v);
    b := StoreByte(b, f, 3, 3, v);
    b := StoreByte(b, f, 3, 11, v);
    b := StoreJoined(b, f, 3, 19, 6, v);
    b := StoreByte(b, f, 4, 2, v);
    b := StoreByte(b, f, 4, 10, v);
    b := StoreByte(b, f, 4, 18, v);
  }

  method StoreHigh(b0: seq<byte>, f: Fe, ghost v: nat) returns (b: seq<byte>)
    requires Canonical(f, v) && |b0| == 16 && BytesOf(b0, v)
    ensures |b| == 32 && BytesOf(b, v)
  {
    hide Canonical, BytesOf;
    b := StoreByte(b0, f, 5, 0, v);
    b := StoreByte(b, f, 5, 8, v);
    b := StoreByte(b, f, 5, 16, v);
    b := StoreJoined(b, f, 5, 24, 1, v);
    b := StoreByte(b, f, 6, 7, v);
    b := StoreByte(b, f, 6, 15, v);
    b := StoreJoined(b, f, 6, 23, 3, v);
    b := StoreByte(b, f, 7, 5, v);
    b := StoreByte(b, f, 7, 13, v);
    b := StoreJoined(b, f, 7, 21, 4, v);
    b := StoreByte(b, f, 8, 4, v);
    b := StoreByte(b, f, 8, 12, v);
    b := StoreJoined(b, f, 8, 20, 6, v);
    b := StoreByte(b, f, 9, 2, v);
    b := StoreByte(b, f, 9, 10, v);
    b := StoreByte(b, f, 9, 18, v);
  }

  /** fe_tobytes: the representative in [0, p). */
  method FeToBytes(f: Fe) returns (b: seq<byte>)
    requires Medium(f)
    ensures |b| == 32 && LoadLE(b) == FeVal(f) % P
  {
    var q, q0 := EstimateQuotient(f);
    SplitTop(f);
    LowBound(f, 9);
    WeightValues();
    QuotientExact(FeVal(f), ValTo(Wide(f), 9), f[9] as int, q0, q as int);
    hide ValTo, W, FeVal;
    var r := Settle(f, q);
    ghost var v: nat := FeVal(r);
    b := StoreLow(r, v);
    b := StoreHigh(b, r, v);
    Pow2Of256(|b|);
    BytesOfLoad(b, v);
    ResidueOf(FeVal(f), q as int, v);
  }

  lemma SplitTop(f: Fe)
    ensures FeVal(f) == ValTo(Wide(f), 9) + f[9] as int * W(9)
  {
  }

  lemma ResidueOf(h: int, q: int, v: int)
    requires v == h - q * P && 0 <= v < P
    ensures v == h % P
  {
    DivUnique(h, P, q, v);
  }

  /** fe_tobytes after fe_frombytes reduces the low 255 bits. */
  method Canonicalize(s: seq<byte>) returns (b: seq<byte>)
    requires |s| == 32
    ensures |b| == 32 && LoadLE(b) == Bits(LoadLE(s), 0, 255) % P
  {
    hide LoadLE, Bits, FeVal, Congruent;
    var f := FeFromBytes(s);
    b := FeToBytes(f);
    SameResidue(FeVal(f), Bits(LoadLE(s), 0, 255), P);
  }

  /** fe_isnegative: the parity of the representative. */
  method FeIsNegative(f: Fe) returns (odd: bool)
    requires Medium(f)
    ensures odd <==> FeVal(f) % P % 2 == 1
  {
    var s := FeToBytes(f);
    odd := s[0] % 2 == 1;
    assert LoadLE(s) == s[0] as nat + 256 * LoadLE(s[1..]);
  }

  lemma {:induction false} LoadZero(s: seq<byte>)
    ensures LoadLE(s) == 0 <==> forall k :: 0 <= k < |s| ==> s[k] == 0
  {
    if s != [] {
      LoadZero(s[1..]);
      if forall k :: 0 <= k < |s| ==> s[k] == 0 {
        assert forall k :: 0 <= k < |s[1..]| ==> s[1..][k] == s[k + 1];
      }
      if LoadLE(s) == 0 {
        assert forall k :: 0 < k < |s| ==> s[k] == s[1..][k - 1];
      }
    }
  }

  /** fe_isnonzero: whether any byte of the representative is set. */
  method FeIsNonzero(f: Fe) returns (nonzero: bool)
    requires Medium(f)
    ensures nonzero <==> FeVal(f) % P != 0
  {
    var s := FeToBytes(f);
    LoadZero(s);
    nonzero := false;
    for i := 0 to 32
      invariant nonzero <==> exists k :: 0 <= k < i && s[k] != 0
    {
      nonzero := nonzero || s[i] != 0;
    }
  }
}
