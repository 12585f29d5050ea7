/**
 The compact code for 64-bit integers of csdb/src/integral_encdec.cpp: the number
 of trailing ones of the first byte is the number of bytes that follow, and the
 value is sign-extended from the 7 bits per byte that are stored.
 */
module IntegralCodec {
  import opened Basics
  import opened Arith
  import opened Bytes
  import Seqs

  const TWO63: nat := 0x8000_0000_0000_0000
  const TWO64: nat := 0x1_0000_0000_0000_0000

  /** value & 0x8000000000000000 ? ~value : value */
  function Magnitude(v: nat): nat
    requires v < TWO64
  {
    if v >= TWO63 then TWO64 - 1 - v else v
  }

  /** v is the sign extension of k bits. */
  ghost predicate Fits(v: nat, k: nat)
    requires v < TWO64 && 1 <= k
  {
    Magnitude(v) < Pow2(k - 1)
  }

  //// Little-endian bytes

  function StoreLE(x: nat, n: nat): (s: seq<byte>)
    ensures |s| == n
  {
    if n == 0 then [] else [(x % 256) as byte] + StoreLE(x / 256, n - 1)
  }

  lemma {:induction false} StoreIs(x: nat, n: nat)
    ensures LoadLE(StoreLE(x, n)) == Bits(x, 0, 8 * n)
  {
    if n == 0 {
      assert Bits(x, 0, 0) == 0;
    } else {
      StoreIs(x / 256, n - 1);
      var s := StoreLE(x, n);
      assert s[1..] == StoreLE(x / 256, n - 1);
      LowByte(x, 8 * (n - 1));
    }
  }

  lemma LowByte(x: nat, k: nat)
    ensures Bits(x, 0, 8 + k) == x % 256 + 256 * Bits(x / 256, 0, k)
  {
    Pow2Small();
    Pow2Add(8, k);
    var y := x / 256;
    SplitAtBit(y, k);
    hide Pow2, Shr, Bits;
    var lo, hi := Bits(y, 0, k), Shr(y, k);
    assert x == x % 256 + 256 * y;
    MulAssoc(256, Pow2(k), hi);
    SplitUnique(x, 8 + k, x % 256 + 256 * lo, hi);
  }

  //// Decoding

  /** Trailing ones of a byte. */
  function TrailingOnes(x: nat): nat { if x % 2 == 1 then 1 + TrailingOnes(x / 2) else 0 }

  lemma {:induction false} OnesBelow(x: nat, k: nat)
    requires x < Pow2(k)
    ensures TrailingOnes(x) <= k
  {
    if x % 2 == 1 {
      assert k > 0;
      OnesBelow(x / 2, k - 1);
    }
  }

  lemma {:induction false} OnesOf(b: nat, x: nat, n: nat)
    requires n + 1 == Pow2(b) + Pow2(b + 1) * x
    ensures TrailingOnes(n) == b
  {
    if b == 0 {
      assert Pow2(1) == 2;
    } else {
      OnesStep(b, x, n);
      OnesOf(b - 1, x, (n - 1) / 2);
    }
  }

  lemma OnesStep(b: nat, x: nat, n: nat)
    requires 0 < b && n + 1 == Pow2(b) + Pow2(b + 1) * x
    ensures n % 2 == 1 && (n - 1) / 2 + 1 == Pow2(b - 1) + Pow2(b) * x && n / 2 == (n - 1) / 2
  {
    var p := Pow2(b - 1);
    Pow2Positive(b - 1);
    assert Pow2(b) == 2 * p && Pow2(b + 1) == 2 * Pow2(b);
    hide Pow2;
    MulAssoc(2, Pow2(b), x);
    assert 0 <= Pow2(b) * x;
    assert n == 2 * (p + Pow2(b) * x - 1) + 1;
  }

  /** The stored bits, before sign extension. */
  function Stored(s: seq<byte>, b: nat): nat
    requires b < 8 && b < |s|
  {
    Pow2Positive(b + 1);
    LoadLE(s[1..b + 1]) * Pow2(7 - b) + Shr(s[0] as nat, b + 1)
  }

  /** The value of the code at the front of s and the bytes it takes. */
  function Decoded(s: seq<byte>): Option<(int, nat)> {
    if s == [] then None
    else
      var b := TrailingOnes(s[0] as nat);
      if |s| < b + 1 then None
      else if b >= 8 then Some((LoadLE(s[1..b + 1]), b + 1))
      else
        var x := Stored(s, b);
        Some((if s[b] >= 128 then x + TWO64 - Pow2(7 * (b + 1)) else x, b + 1))
  }

  /** The top stored bit is the top bit of the last byte. */
  lemma StoredRange(s: seq<byte>, b: nat)
    requires b < 8 && b < |s|
    ensures Stored(s, b) < Pow2(7 * (b + 1))
    ensures s[b] >= 128 <==> Stored(s, b) >= Pow2(7 * (b + 1) - 1)
  {
    hide Pow2, LoadLE, Shr;
    var r := 7 - b;
    var lo, y := Shr(s[0] as nat, b + 1), LoadLE(s[1..b + 1]);
    LowPart(s[0], b);
    LoadBelow(s[1..b + 1]);
    Pow2Add(8 * b, r);
    Compose(lo, y, Pow2(r), Pow2(8 * b));
    assert 8 * b + r == 7 * (b + 1);
    if b == 0 {
      FirstSign(s[0]);
      assert s[1..1] == [];
    } else {
      LastSign(s[1..b + 1]);
      Pow2Add(8 * b - 1, r);
      ComposeSign(lo, y, Pow2(r), Pow2(8 * b - 1));
    }
  }

  lemma LowPart(x: byte, b: nat)
    requires b < 8
    ensures Shr(x as nat, b + 1) < Pow2(7 - b)
  {
    Pow2Small();
    Pow2Add(b + 1, 7 - b);
    ShrBelow(x as nat, b + 1, 7 - b);
  }

  lemma Compose(lo: nat, y: nat, p: nat, q: nat)
    requires lo < p && y < q
    ensures y * p + lo < q * p
  {
    MulMono(y + 1, q, p);
    assert (y + 1) * p == y * p + p;
  }

  lemma ComposeSign(lo: nat, y: nat, p: nat, h: nat)
    requires lo < p
    ensures y * p + lo >= h * p <==> y >= h
  {
    if y >= h { MulMono(h, y, p); } else { Compose(lo, y, p, h); }
  }

  lemma FirstSign(x: byte)
    ensures LoadLE([]) == 0 && Pow2(7 - 0) == 128 && Pow2(6) == 64
    ensures x >= 128 <==> Shr(x as nat, 1) >= 64
  {
    assert Pow2(4) == 16 && Pow2(6) == 64 && Pow2(7) == 128 && Pow2(1) == 2;
  }

  lemma LastSign(t: seq<byte>)
    requires t != []
    ensures t[|t| - 1] >= 128 <==> LoadLE(t) >= Pow2(8 * |t| - 1)
  {
    var n := |t| - 1;
    var low, last := t[..n], t[n];
    assert LoadLE([last]) == last as nat && Pow2(7) == 128;
    hide Pow2, LoadLE;
    assert t == low + [last];
    LoadConcat(low, [last]);
    LoadBelow(low);
    Pow2Add(8 * n, 7);
    assert 8 * |t| - 1 == 8 * n + 7;
    SignOf(LoadLE(t), LoadLE(low), last as nat, Pow2(8 * n));
  }

  lemma SignOf(x: nat, low: nat, last: nat, p: nat)
    requires x == low + p * last && low < p
    ensures last >= 128 <==> x >= p * 128
  {
    ComposeSign(low, last, p, 128);
    assert p * last == last * p && p * 128 == 128 * p;
  }

  //// Encoding

  /** The first byte: b trailing ones, a zero, and the low 7 - b bits of v. */
  function First(v: nat, b: nat): (x: nat)
    requires b < 8
  {
    Pow2Positive(b);
    v * Pow2(b + 1) % 256 + (Pow2(b) - 1)
  }

  /** v in b + 1 bytes. */
  function Code(v: nat, b: nat): (s: seq<byte>)
    requires b <= 8
    ensures |s| == b + 1
  {
    if b == 8 then [255] + StoreLE(v, 8)
    else
      FirstIs(v, b);
      [First(v, b) as byte] + StoreLE(Shr(v, 7 - b), b)
  }

  lemma FirstForm(v: nat, b: nat)
    requires b < 8
    ensures First(v, b) + 1 == Pow2(b) + Pow2(b + 1) * Bits(v, 0, 7 - b) && First(v, b) < 256
  {
    assert Pow2(b + 1) == 2 * Pow2(b);
    hide Pow2, Shr, Bits;
    var p, q, x := Pow2(b + 1), Pow2(7 - b), Bits(v, 0, 7 - b);
    Pow2Small();
    Pow2Add(b + 1, 7 - b);
    Pow2Positive(b);
    SplitAtBit(v, 7 - b);
    ShiftedMod(v, p, q, x, Shr(v, 7 - b));
    FirstBound(p, q, x, Pow2(b));
  }

  lemma FirstBound(p: nat, q: nat, x: nat, h: nat)
    requires x < q && p * q == 256 && p == 2 * h
    ensures p * x + h <= 256
  {
    MulMono(x + 1, q, p);
    assert (x + 1) * p == p * x + p && q * p == p * q;
  }

  lemma FirstIs(v: nat, b: nat)
    requires b < 8
    ensures First(v, b) < 256 && TrailingOnes(First(v, b)) == b
    ensures Shr(First(v, b), b + 1) == Bits(v, 0, 7 - b)
  {
    var x, n := Bits(v, 0, 7 - b), First(v, b);
    Pow2Positive(b);
    assert Pow2(b + 1) == 2 * Pow2(b);
    FirstForm(v, b);
    hide Pow2, Shr, Bits, First, TrailingOnes;
    OnesOf(b, x, n);
    SplitUnique(n, b + 1, Pow2(b) - 1, x);
  }

  lemma ShiftedMod(v: nat, p: nat, q: nat, x: nat, h: nat)
    requires p * q == 256 && x < q && v == x + q * h && 0 < p
    ensures v * p % 256 == p * x
  {
    assert v * p == p * x + 256 * h by {
      assert (x + q * h) * p == x * p + q * h * p;
      assert q * h * p == p * q * h;
    }
    MulMono(x + 1, q, p);
    assert (x + 1) * p == p * x + p && q * p == p * q;
    DivUnique(v * p, 256, h, p * x);
  }

  /** The bits of v that a code of b + 1 bytes holds. */
  lemma CodeStores(v: nat, b: nat, t: seq<byte>)
    requires b < 8
    ensures Stored(Code(v, b) + t, b) == Bits(v, 0, 7 * (b + 1))
  {
    var r := 7 - b;
    var s := Code(v, b) + t;
    assert s[1..b + 1] == StoreLE(Shr(v, r), b);
    FirstIs(v, b);
    StoreIs(Shr(v, r), b);
    hide LoadLE, Bits, Shr, Pow2, StoreLE, First;
    FieldOf(v, r, 8 * b);
    LowBitsSplit(v, r, 8 * b);
    assert r + 8 * b == 7 * (b + 1);
  }

  lemma FieldOf(v: nat, r: nat, w: nat)
    ensures Bits(Shr(v, r), 0, w) == Bits(v, r, w)
  {
    ShrZeroBits(Shr(v, r));
  }

  lemma LowBitsSplit(v: nat, r: nat, w: nat)
    ensures Bits(v, r, w) * Pow2(r) + Bits(v, 0, r) == Bits(v, 0, r + w)
  {
    hide Pow2, Shr;
    SplitAtBit(v, r);
    ShrSplit(v, r, w);
    BitsBelow(v, r, w);
    Pow2Add(r, w);
    hide Bits;
    var lo, y, h, p, q := Bits(v, 0, r), Bits(v, r, w), Shr(v, r + w), Pow2(r), Pow2(w);
    Distribute(p, y, q * h);
    MulAssoc(p, q, h);
    Compose(lo, y, p, q);
    assert y * p == p * y && q * p == p * q;
    SplitUnique(v, r + w, lo + p * y, h);
  }

  /** The low k bits of a number that fits into them, and its sign. */
  lemma LowBitsOfFit(v: nat, k: nat)
    requires v < TWO64 && 1 <= k <= 64 && Fits(v, k)
    ensures var x := Bits(v, 0, k);
            if v < TWO63 then x == v < Pow2(k - 1) else x >= Pow2(k - 1) && v == x + TWO64 - Pow2(k)
  {
    var h := Pow2(k - 1);
    assert Pow2(k) == 2 * h;
    Pow2Of64(k, 64 - k);
    Pow2Positive(64 - k);
    hide Pow2, Bits;
    if v < TWO63 {
      SplitUnique(v, k, v, 0);
    } else {
      var m, q := TWO64 - 1 - v, Pow2(64 - k);
      Distribute(Pow2(k), q, -1);
      SplitUnique(v, k, Pow2(k) - 1 - m, q - 1);
    }
  }

  lemma Pow2Of64(a: nat, b: nat)
    requires a + b == 64
    ensures Pow2(a) * Pow2(b) == TWO64
  {
    Pow2Small();
    Pow2Add(32, 32);
    Pow2Add(a, b);
  }

  /** A code that is wide enough decodes to its value, whatever follows it. */
  lemma CodeDecodes(v: nat, b: nat, t: seq<byte>)
    requires v < TWO64 && b <= 8 && (b < 8 ==> Fits(v, 7 * (b + 1)))
    ensures Decoded(Code(v, b) + t) == Some((v, b + 1))
  {
    var s := Code(v, b) + t;
    if b == 8 {
      assert TrailingOnes(255) == 8 by { Pow2Small(); OnesOf(8, 0, 255); }
      assert s[1..9] == StoreLE(v, 8);
      StoreIs(v, 8);
      Pow2Of64(32, 32);
      Pow2Add(32, 32);
      WholeBits(v, 8 * 8);
    } else {
      FirstIs(v, b);
      assert s[0] as nat == First(v, b);
      hide First, Shr, Bits, Pow2, StoreLE, TrailingOnes, LoadLE, Stored, Fits;
      StoredRange(s, b);
      CodeStores(v, b, t);
      LowBitsOfFit(v, 7 * (b + 1));
    }
  }

  lemma WholeBits(v: nat, k: nat)
    requires v < Pow2(k)
    ensures Bits(v, 0, k) == v
  {
    SplitUnique(v, k, v, 0);
  }

  //// The two operations

  /** The position of the highest set bit; of zero it is whatever the machine leaves. */
  method BitScanReverse(x: nat, zero: nat) returns (p: nat)
    ensures if x == 0 then p == zero else Pow2(p) <= x < Pow2(p + 1)
  {
    if x == 0 { return zero; }
    p := 0;
    var y := x;
    while y > 1
      invariant 0 < y && y == Shr(x, p)
    {
      ShrShr(x, p, 1);
      assert Shr(y, 1) == y / 2;
      y := y / 2;
      p := p + 1;
    }
    SplitAtBit(x, p);
    assert Pow2(p + 1) == 2 * Pow2(p);
  }

  /** encode for uint64_t, into a buffer of at least nine bytes. */
  method Encode(buf: array<byte>, value: nat, zero: nat) returns (n: nat)
    requires buf.Length >= 9 && value < TWO64 && zero < 64
    modifies buf
    ensures 1 <= n <= 9 && buf[..n] == Code(value, n - 1) && buf[n..] == old(buf[n..])
    ensures n < 9 ==> Fits(value, 7 * n)
    ensures 1 < n && Magnitude(value) > 0 ==> !Fits(value, 7 * (n - 1))
  {
    hide Pow2, Code;
    var copy := Magnitude(value);
    var p := BitScanReverse(copy, zero);
    var bits := p + 2;
    if bits < 7 { bits := 7; }
    var bytes := 8;
    if 57 > bits { bytes := (bits - 1) / 7; }
    SizeFits(value, copy, p, bits, bytes);
    n := bytes + 1;
    var code := Code(value, bytes);
    for i := 0 to n
      invariant buf[..i] == code[..i] && buf[n..] == old(buf[n..])
    {
      buf[i] := code[i];
      assert buf[..i + 1] == buf[..i] + [code[i]];
    }
  }

  /** The number of bytes is the least that holds the bits. */
  lemma SizeFits(v: nat, m: nat, p: nat, bits: nat, b: nat)
    requires v < TWO64 && m == Magnitude(v) && bits == (if p + 2 < 7 then 7 else p + 2)
    requires b == if bits < 57 then (bits - 1) / 7 else 8
    requires m > 0 ==> Pow2(p) <= m < Pow2(p + 1)
    ensures b < 8 ==> Fits(v, 7 * (b + 1))
    ensures 0 < b && m > 0 ==> !Fits(v, 7 * b)
  {
    if b < 8 {
      Pow2Positive(7 * (b + 1) - 1);
      Pow2Monotone(if p + 1 <= 7 * (b + 1) - 1 then p + 1 else 0, 7 * (b + 1) - 1);
    }
    if 0 < b && m > 0 { Pow2Monotone(7 * b - 1, p); }
  }

  /** decode for uint64_t: how many bytes it took, or zero, and the value. */
  method Decode(buf: seq<byte>) returns (n: nat, value: int)
    ensures match Decoded(buf)
            case None => n == 0
            case Some((v, used)) => n == used && value == v
  {
    n, value := 0, 0;
    if |buf| < 1 { return; }
    var first := buf[0] as nat;
    var bytes: nat, mask := 0, first;
    while mask % 2 == 1
      decreases mask
      invariant TrailingOnes(first) == bytes + TrailingOnes(mask)
    {
      bytes := bytes + 1;
      mask := mask / 2;
    }
    if bytes + 1 > |buf| { return; }
    var val: int := LoadLE(buf[1..bytes + 1]);
    if 8 > bytes {
      val := Stored(buf, bytes);
      if buf[bytes] >= 128 { val := val + TWO64 - Pow2(7 * (bytes + 1)); }
    }
    n, value := bytes + 1, val;
  }

  //// Properties

  /** Decoding what was encoded gives the value and the length back. */
  method RoundTrip(value: nat, zero: nat, tail: seq<byte>) returns (n: nat, m: nat, back: int)
    requires value < TWO64 && zero < 64
    ensures 1 <= n <= 9 && m == n && back == value
  {
    hide Code, Decoded, Fits;
    var buf := new byte[9];
    n := Encode(buf, value, zero);
    CodeDecodes(value, n - 1, tail);
    m, back := Decode(buf[..n] + tail);
  }

  /** A code cut short is rejected. */
  lemma PrefixRejected(v: nat, b: nat, k: nat)
    requires v < TWO64 && b <= 8 && k <= b
    ensures Decoded(Code(v, b)[..k]).None?
  {
    if k > 0 {
      var s := Code(v, b)[..k];
      assert s[0] == Code(v, b)[0];
      if b == 8 {
        Pow2Small();
        OnesOf(8, 0, 255);
      } else {
        FirstIs(v, b);
      }
    }
  }

  /** No code is a proper prefix of another, and equal codes have equal values. */
  lemma PrefixFree(v: nat, b: nat, w: nat, c: nat)
    requires v < TWO64 && b <= 8 && (b < 8 ==> Fits(v, 7 * (b + 1)))
    requires w < TWO64 && c <= 8 && (c < 8 ==> Fits(w, 7 * (c + 1)))
    requires Code(v, b) <= Code(w, c)
    ensures b == c && v == w
  {
    hide Code, Decoded, Fits;
    var s, t := Code(v, b), Code(w, c);
    CodeDecodes(v, b, t[b + 1..]);
    CodeDecodes(w, c, []);
    assert s + t[b + 1..] == t == t + [];
  }

  /** Whatever decodes from n <= 8 bytes fits into 7 n bits. */
  lemma DecodedFits(s: seq<byte>)
    requires Decoded(s).Some?
    ensures var (v, n) := Decoded(s).value; n <= 8 ==> 0 <= v < TWO64 && Fits(v, 7 * n)
  {
    var b := TrailingOnes(s[0] as nat);
    if b < 8 {
      var k := 7 * (b + 1);
      assert Pow2(k) == 2 * Pow2(k - 1);
      hide Pow2, Stored, LoadLE, TrailingOnes;
      StoredRange(s, b);
      Pow2Small();
      Pow2Of64(32, 32);
      Pow2Add(32, 31);
      HalfRange(k);
      Extension(Stored(s, b), Pow2(k - 1), s[b] >= 128);
    }
  }

  lemma HalfRange(k: nat)
    requires k <= 56 && 1 <= k
    ensures Pow2(k - 1) < TWO63
  {
    Pow2Of64(k - 1, 65 - k);
    Pow2Monotone(1, 64 - k);
    assert Pow2(1) == 2 && Pow2(65 - k) == 2 * Pow2(64 - k);
    hide Pow2;
    MulMono(4, Pow2(65 - k), Pow2(k - 1));
  }

  /** Sign extension of 2h values. */
  lemma Extension(x: nat, h: nat, negative: bool)
    requires x < 2 * h && h < TWO63 && (negative <==> x >= h)
    ensures var v := if negative then x + TWO64 - 2 * h else x;
            0 <= v < TWO64 && Magnitude(v) < h
  {
  }

  /** No string that decodes to v is shorter than what Encode writes, except for
      0 and -1, where the bit scan has no set bit to find. */
  lemma Minimal(v: nat, n: nat, s: seq<byte>)
    requires v < TWO64 && Magnitude(v) > 0 && 1 <= n <= 9
    requires 1 < n ==> !Fits(v, 7 * (n - 1))
    requires Decoded(s).Some? && Decoded(s).value.0 == v
    ensures Decoded(s).value.1 >= n
  {
    var m := Decoded(s).value.1;
    DecodedFits(s);
    if m < n { Pow2Monotone(7 * m - 1, 7 * (n - 1) - 1); }
  }
}
