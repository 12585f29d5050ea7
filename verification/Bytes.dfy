/** Bytes and the little-endian value of byte strings. */
module Bytes {
  import opened Arith
  import Seqs

  newtype byte = x: int | 0 <= x < 256

  /** The little-endian value of a byte string. */
  function LoadLE(s: seq<byte>): nat {
    if s == [] then 0 else s[0] as nat + 256 * LoadLE(s[1..])
  }

  lemma Pow256(n: nat)
    ensures Pow2(8 * (n + 1)) == 256 * Pow2(8 * n)
  {
    Pow2Add(8, 8 * n);
    Pow2Small();
    assert 8 + 8 * n == 8 * (n + 1);
  }

  lemma {:induction false} LoadBelow(s: seq<byte>)
    ensures LoadLE(s) < Pow2(8 * |s|)
  {
    if s != [] {
      LoadBelow(s[1..]);
      Pow256(|s| - 1);
    }
  }

  lemma {:induction false} LoadConcat(a: seq<byte>, b: seq<byte>)
    ensures LoadLE(a + b) == LoadLE(a) + Pow2(8 * |a|) * LoadLE(b)
  {
    if a == [] {
      assert a + b == b;
    } else {
      LoadConcat(a[1..], b);
      assert (a + b)[1..] == a[1..] + b;
      Pow256(|a| - 1);
      hide Pow2;
      var p, x, y := Pow2(8 * (|a| - 1)), LoadLE(b), LoadLE(a[1..]);
      MulAssoc(256, p, x);
      assert LoadLE(a + b) == a[0] as nat + 256 * (y + p * x);
    }
  }

  lemma {:induction false} LoadInjective(a: seq<byte>, b: seq<byte>)
    requires |a| == |b| && LoadLE(a) == LoadLE(b)
    ensures a == b
  {
    if a != [] {
      assert a[0] as nat == LoadLE(a) % 256 && b[0] as nat == LoadLE(b) % 256;
      LoadInjective(a[1..], b[1..]);
      assert a == [a[0]] + a[1..] && b == [b[0]] + b[1..];
    }
  }

  //// Bit fields

  /** x >> k. */
  function Shr(x: nat, k: nat): (q: nat)
  {
    Pow2Positive(k);
    DivNonNegative(x, Pow2(k));
    x / Pow2(k)
  }

  /** The w bits of x from bit k on. */
  function Bits(x: nat, k: nat, w: nat): (b: nat)
  {
    Pow2Positive(w);
    Shr(x, k) % Pow2(w)
  }

  lemma BitsBelow(x: nat, k: nat, w: nat)
    ensures Bits(x, k, w) < Pow2(w)
  {
    Pow2Positive(w);
  }

  /** x = lo + 2^k * hi with lo < 2^k determines both parts. */
  lemma SplitUnique(x: nat, k: nat, lo: nat, hi: nat)
    requires lo < Pow2(k) && x == lo + Pow2(k) * hi
    ensures Shr(x, k) == hi && Bits(x, 0, k) == lo
  {
    assert Pow2(k) * hi == hi * Pow2(k);
    DivUnique(x, Pow2(k), hi, lo);
    assert Shr(x, 0) == x / 1 == x;
  }

  lemma SplitAtBit(x: nat, k: nat)
    ensures x == Bits(x, 0, k) + Pow2(k) * Shr(x, k) && Bits(x, 0, k) < Pow2(k)
  {
    Pow2Positive(k);
    assert Shr(x, 0) == x / 1 == x;
    assert x == x / Pow2(k) * Pow2(k) + x % Pow2(k);
  }

  lemma ShrShr(x: nat, a: nat, b: nat)
    ensures Shr(Shr(x, a), b) == Shr(x, a + b)
  {
    Pow2Positive(a);
    Pow2Positive(b);
    Pow2Add(a, b);
    DivDiv(x, Pow2(a), Pow2(b));
  }

  lemma ShrBelow(x: nat, a: nat, b: nat)
    requires x < Pow2(a + b)
    ensures Shr(x, a) < Pow2(b)
  {
    Pow2Positive(a);
    Pow2Add(a, b);
    DivBelow(x, Pow2(a), Pow2(b));
  }

  lemma ShrZero(x: nat, k: nat)
    ensures Shr(x, k) == 0 <==> x < Pow2(k)
  {
    Pow2Positive(k);
    DivNonNegative(x, Pow2(k));
  }

  /** Bits of a field are bits of the whole. */
  lemma BitsOfBits(x: nat, k: nat, w: nat, r: nat, v: nat)
    requires r + v <= w
    ensures Bits(Bits(x, k, w), r, v) == Bits(x, k + r, v)
  {
    var y := Shr(x, k);
    SplitAtBit(y, w);
    var lo, hi := Bits(x, k, w), Shr(y, w);
    assert Bits(y, 0, w) == lo by { assert Shr(y, 0) == y / 1 == y; }
    // y == lo + 2^w * hi; shift by r
    Pow2Add(r, w - r);
    Pow2Positive(r);
    SplitAtBit(lo, r);
    var a, b := Bits(lo, 0, r), Shr(lo, r);
    ShiftedSum(y, lo, hi, r, w, a, b);
    ShrShr(x, k, r);
    // y >> r == b + 2^(w-r) * hi
    Pow2Add(v, w - r - v);
    MultipleVanishes(b, hi, v, w - r - v);
  }

  lemma ShiftedSum(y: nat, lo: nat, hi: nat, r: nat, w: nat, a: nat, b: nat)
    requires r <= w && y == lo + Pow2(w) * hi && lo == a + Pow2(r) * b && a < Pow2(r)
    ensures Shr(y, r) == b + Pow2(w - r) * hi
  {
    Pow2Add(r, w - r);
    hide Pow2, Shr;
    var p, q := Pow2(r), Pow2(w - r);
    MulAssoc(p, q, hi);
    Distribute(p, b, q * hi);
    SplitUnique(y, r, a, b + q * hi);
  }

  lemma MultipleVanishes(b: nat, hi: nat, v: nat, u: nat)
    requires Pow2(v + u) == Pow2(v) * Pow2(u)
    ensures Pow2(v) > 0 && (b + Pow2(v + u) * hi) % Pow2(v) == b % Pow2(v)
  {
    Pow2Positive(v);
    MulAssoc(Pow2(v), Pow2(u), hi);
    AddMultiple(b, Pow2(u) * hi, Pow2(v));
  }

  lemma ShrZeroBits(x: nat)
    ensures Shr(x, 0) == x
  {
    assert x / 1 == x;
  }

  lemma LoadDrop(s: seq<byte>, i: nat)
    requires i <= |s|
    ensures LoadLE(s[i..]) == Shr(LoadLE(s), 8 * i)
  {
    Seqs.SplitAt(s, i);
    LoadConcat(s[..i], s[i..]);
    LoadBelow(s[..i]);
    SplitUnique(LoadLE(s), 8 * i, LoadLE(s[..i]), LoadLE(s[i..]));
  }

  /** A run of bytes is a bit field of the whole. */
  lemma LoadField(s: seq<byte>, i: nat, n: nat)
    requires i + n <= |s|
    ensures LoadLE(s[i..i + n]) == Bits(LoadLE(s), 8 * i, 8 * n)
  {
    var a, b, c := s[..i], s[i..i + n], s[i + n..];
    assert s == a + (b + c);
    LoadConcat(a, b + c);
    LoadConcat(b, c);
    LoadBelow(a);
    LoadBelow(b);
    hide LoadLE, Pow2;
    var y := LoadLE(b + c);
    SplitUnique(LoadLE(s), 8 * i, LoadLE(a), y);
    SplitUnique(y, 8 * n, LoadLE(b), LoadLE(c));
    ShrZeroBits(y);
  }

  /** out holds the low bytes of v. */
  ghost predicate BytesOf(out: seq<byte>, v: nat) {
    forall j :: 0 <= j < |out| ==> out[j] as nat == Bits(v, 8 * j, 8)
  }

  lemma Appended(out: seq<byte>, c: byte, v: nat)
    requires BytesOf(out, v) && c as nat == Bits(v, 8 * |out|, 8)
    ensures BytesOf(out + [c], v)
  {
  }

  /** The bits of x from bit k on: one field and the rest. */
  lemma ShrSplit(x: nat, k: nat, w: nat)
    ensures Shr(x, k) == Bits(x, k, w) + Pow2(w) * Shr(x, k + w)
  {
    SplitAtBit(Shr(x, k), w);
    ShrShr(x, k, w);
    ShrZeroBits(Shr(x, k));
  }

  lemma {:induction false} BytesOfLoad(out: seq<byte>, v: nat)
    requires BytesOf(out, v) && v < Pow2(8 * |out|)
    ensures LoadLE(out) == v
  {
    LoadTail(out, v, 0);
    ShrZeroBits(v);
  }

  lemma {:induction false} LoadTail(out: seq<byte>, v: nat, j: nat)
    requires j <= |out| && BytesOf(out, v) && v < Pow2(8 * |out|)
    ensures LoadLE(out[j..]) == Shr(v, 8 * j)
    decreases |out| - j
  {
    if j == |out| {
      ShrZero(v, 8 * j);
    } else {
      LoadTail(out, v, j + 1);
      ShrSplit(v, 8 * j, 8);
      Pow2Small();
      assert out[j..][1..] == out[j + 1..];
      assert 8 * j + 8 == 8 * (j + 1);
    }
  }

  /** The top part of a field, without a mask. */
  lemma FieldTop(v: nat, k: nat, w: nat, r: nat)
    requires r <= w
    ensures Shr(Bits(v, k, w), r) == Bits(v, k + r, w - r)
  {
    var x := Bits(v, k, w);
    BitsBelow(v, k, w);
    ShrBelow(x, r, w - r);
    BitsOfBits(v, k, w, r, w - r);
    hide Pow2;
    Pow2Positive(w - r);
    ShrZeroBits(Shr(x, r));
    SplitUnique(Shr(x, r), w - r, Shr(x, r), 0);
  }

  /** A byte that straddles two adjacent fields, of w and t bits. */
  lemma Straddle(v: nat, k: nat, w: nat, r: nat, t: nat)
    requires r <= w && 8 <= w - r + t
    ensures (Shr(Bits(v, k, w), r) + Pow2(w - r) * Bits(v, k + w, t)) % 256 == Bits(v, k + r, 8)
  {
    var u := w - r;
    var y, z := Bits(v, k + w, t), Shr(v, k + w + t);
    FieldTop(v, k, w, r);
    ShrSplit(v, k + r, u);
    ShrSplit(v, k + w, t);
    Pow2Add(u, t);
    Pow2Add(8, u + t - 8);
    Pow2Small();
    hide Pow2, Shr;
    var b := Bits(v, k + r, u) + Pow2(u) * y;
    Distribute(Pow2(u), y, Pow2(t) * z);
    MulAssoc(Pow2(u), Pow2(t), z);
    MultipleVanishes(b, z, 8, u + t - 8);
  }

  /** One more bit. */
  lemma LowBits(x: nat, n: nat)
    ensures Bits(x, 0, n + 1) == Bits(x, 0, n) + Pow2(n) * Bits(x, n, 1)
  {
    assert Pow2(1) == 2 && Pow2(n + 1) == 2 * Pow2(n);
    BitsBelow(x, n, 1);
    SplitAtBit(x, n);
    ShrSplit(x, n, 1);
    hide Pow2, Bits, Shr;
    var lo, b, h := Bits(x, 0, n), Bits(x, n, 1), Shr(x, n + 1);
    Distribute(Pow2(n), b, 2 * h);
    MulAssoc(Pow2(n), 2, h);
    MulMono(b, 1, Pow2(n));
    SplitUnique(x, n + 1, lo + Pow2(n) * b, h);
  }
}
