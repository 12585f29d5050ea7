/** fe_tobytes of ed25519/src/fe.c: the canonical bytes of a field element. */
module Ed25519ToBytes {
  import opened Arith
  import opened Bytes
  import opened Congruence
  import opened Ints
  import opened Ed25519Field
  import opened Ed25519Carry
  import opened Ed25519FieldMul
  import opened Ed25519FromBytes

  /** |f| bounded by 1.1*2^26, 1.1*2^25, 1.1*2^26, ... */
  ghost predicate Medium(f: Fe) {
    forall k :: 0 <= k < 10 ==> Abs(f[k] as int, if k % 2 == 0 then 73819750 else 36909875)
  }

  //// The quotient

  /** x is q parts of size w and a rest. */
  ghost predicate Quotient(x: int, q: int, w: int) { 0 <= x - q * w < w }

  /** q = (f_i + q) >> 26 or 25 */
  method ShiftDown(x: int32, q: int32, i: nat) returns (r: int32)
    requires Abs(x as int, if i % 2 == 0 then 73819750 else 36909875) && Abs(q as int, 22)
    ensures Abs(r as int, 4) && 0 <= x as int + q as int - r as int * Radix(i) < Radix(i)
  {
    r := if i % 2 == 0 then (x + q) / 0x400_0000 else (x + q) / 0x200_0000;
  }

  /** The nested shifts that estimate the quotient by p. */
  method EstimateQuotient(f: Fe) returns (q: int32, ghost q0: int)
    requires Medium(f)
    ensures Abs(q as int, 4) && Quotient(FeVal(f) + q0, q as int, W(10))
    ensures Quotient(19 * f[9] as int + 0x100_0000, q0, 0x200_0000) && Abs(q0, 22)
  {
    q := (19 * f[9] + 0x100_0000) / 0x200_0000;
    q0 := q as int;
    assert Quotient(ValTo(Wide(f), 0) + q0, q0, W(0));
    hide ValTo, W, Quotient, Radix;
    for i := 0 to 10
      invariant Abs(q as int, 22) && (i > 0 ==> Abs(q as int, 4))
      invariant Quotient(ValTo(Wide(f), i) + q0, q as int, W(i))
    {
      var r := ShiftDown(f[i], q, i);
      NextLimb(f, i);
      Step(i);
      QuotientStep(ValTo(Wide(f), i) + q0, q as int, W(i), f[i] as int, Radix(i), r as int);
      q := r;
    }
  }

  lemma QuotientStep(x: int, q: int, w: int, y: int, d: int, r: int)
    requires Quotient(x, q, w) && 0 < d && 0 <= y + q - r * d < d
    ensures Quotient(x + y * w, r, w * d)
  {
    var s := y + q - r * d;
    assert x + y * w - r * (w * d) == x - q * w + s * w by {
      assert r * (w * d) == r * d * w;
      assert (y + q - r * d) * w == y * w + q * w - r * d * w;
    }
    MulMono(0, s, w);
    MulMono(s, d - 1, w);
    assert (d - 1) * w == w * d - w;
  }

  /** All limbs but the last amount to less than 2^231. */
  lemma {:induction false} LowBound(f: Fe, n: nat)
    requires Medium(f) && n <= 10
    ensures Abs(ValTo(Wide(f), n), 2 * W(n))
  {
    if n > 0 {
      LowBound(f, n - 1);
      NextLimb(f, n - 1);
      Step(n - 1);
      hide W, ValTo;
      LowStep(ValTo(Wide(f), n - 1), W(n - 1), f[n - 1] as int, n - 1);
    }
  }

  lemma LowStep(v: int, w: int, x: int, i: nat)
    requires 0 < w && Abs(v, 2 * w) && Abs(x, if i % 2 == 0 then 73819750 else 36909875)
    ensures Abs(v + x * w, 2 * (w * Radix(i)))
  {
    var m := if i % 2 == 0 then 73819750 else 36909875;
    MulMono(x, m, w);
    MulMono(-m, x, w);
  }

  /** The estimate is the quotient: h - (2^255 - 19) q is in [0, 2^255 - 19). */
  lemma QuotientExact(h: int, e: int, h9: int, q0: int, q: int)
    requires h == e + 0x4000000000000000000000000000000000000000000000000000000000 * h9
    requires Abs(e, 0x8000000000000000000000000000000000000000000000000000000000) && Abs(q0, 22)
    requires 0 <= 19 * h9 + 0x100_0000 - q0 * 0x200_0000 < 0x200_0000
    requires 0 <= h + q0 - q * 0x8000000000000000000000000000000000000000000000000000000000000000
                  < 0x8000000000000000000000000000000000000000000000000000000000000000
    ensures 0 <= h - q * P < P
  {
  }

  //// Floor carries

  lemma FeUpdate(f: Fe, i: nat, x: int32)
    requires i < 10
    ensures FeVal(f[i := x]) == FeVal(f) + (x as int - f[i] as int) * W(i)
  {
    assert Wide(f[i := x]) == Wide(f)[i := x as int64];
    ValToUpdate(Wide(f), 10, i, x as int64);
  }

  /** Limbs below n are digits. */
  ghost predicate FeDigits(f: Fe, n: nat)
    requires n <= 10
  {
    forall k :: 0 <= k < n ==> 0 <= f[k] as int < Radix(k)
  }

  method FloorOut(x: int32, i: nat) returns (low: int32, carry: int32)
    requires Abs(x as int, 0x1000_0000)
    ensures 0 <= low as int < Radix(i) && x as int == low as int + carry as int * Radix(i) && Abs(carry as int, 8)
  {
    if i % 2 == 0 {
      carry := x / 0x400_0000;
      low := x - carry * 0x400_0000;
    } else {
      carry := x / 0x200_0000;
      low := x - carry * 0x200_0000;
    }
  }

  method FloorCarry(f: Fe, i: nat) returns (r: Fe)
    requires i < 9 && Abs(f[i] as int, 0x1000_0000) && Abs(f[i + 1] as int, 0x1000_0000)
    ensures r == f[i := r[i]][i + 1 := r[i + 1]] && 0 <= r[i] as int < Radix(i)
    ensures Abs(r[i + 1] as int - f[i + 1] as int, 8) && FeVal(r) == FeVal(f)
  {
    hide W, FeVal, Radix;
    var low, carry := FloorOut(f[i], i);
    var t: Fe := f[i + 1 := f[i + 1] + carry];
    r := t[i := low];
    FeUpdate(f, i + 1, t[i + 1]);
    FeUpdate(t, i, low);
    Step(i);
    FloorKeeps(carry as int, W(i), Radix(i), f[i] as int, low as int);
  }

  lemma FloorKeeps(c: int, w: int, d: int, x: int, low: int)
    requires x == low + c * d
    ensures c * (w * d) + (low - x) * w == 0
  {
    assert c * (w * d) == c * d * w;
    assert (low - x) * w == -(c * d) * w;
    assert -(c * d) * w == -(c * d * w);
  }

  method FloorCarries(f: Fe) returns (r: Fe)
    requires forall k :: 0 <= k < 10 ==> Abs(f[k] as int, 73819850)
    ensures FeDigits(r, 9) && FeVal(r) == FeVal(f)
  {
    hide FeVal;
    r := f;
    for i := 0 to 9
      invariant FeDigits(r, i) && FeVal(r) == FeVal(f)
      invariant Abs(r[i] as int, 73819858) && forall k :: i < k < 10 ==> r[k] == f[k]
    {
      r := FloorCarry(r, i);
    }
  }

  lemma {:induction false} DigitsRange(f: Fe, n: nat)
    requires n <= 10 && FeDigits(f, n)
    ensures 0 <= ValTo(Wide(f), n) < W(n)
  {
    if n > 0 {
      DigitsRange(f, n - 1);
      NextLimb(f, n - 1);
      Step(n - 1);
      hide W, ValTo;
      DigitBound(f[n - 1] as int, W(n - 1), Radix(n - 1));
    }
  }

  lemma DigitBound(x: int, w: int, d: int)
    requires 0 <= x < d && 0 < w
    ensures 0 <= x * w <= w * d - w
  {
    MulMono(0, x, w);
    MulMono(x, d - 1, w);
    assert (d - 1) * w == w * d - w;
  }

  /** Subtracts q times p, leaving digits. */
  method Settle(f: Fe, q: int32) returns (r: Fe)
    requires Medium(f) && Abs(q as int, 4) && 0 <= FeVal(f) - q as int * P < P
    ensures FeDigits(r, 10) && FeVal(r) == FeVal(f) - q as int * P
  {
    hide FeVal;
    var g: Fe := f[0 := f[0] + 19 * q];
    FeUpdate(f, 0, g[0]);
    g := FloorCarries(g);
    r := DropTop(g, FeVal(f), q as int);
  }

  /** The last carry is discarded: it equals q. */
  method DropTop(g: Fe, ghost h: int, ghost q: int) returns (r: Fe)
    requires FeDigits(g, 9) && FeVal(g) == h + 19 * q && 0 <= h - q * P < P
    ensures FeDigits(r, 10) && FeVal(r) == h - q * P
  {
    var carry := g[9] / 0x200_0000;
    r := g[9 := g[9] % 0x200_0000];
    FeUpdate(g, 9, r[9]);
    DigitsRange(r, 10);
    WeightValues();
    hide ValTo, W;
  }

  //// Bytes out

  /** The number that the limbs from n on stand for, shifted down. */
  ghost function UpFrom(f: Fe, n: nat): int
    requires n <= 10
    decreases 10 - n
  {
    if n == 10 then 0 else f[n] as int + Radix(n) * UpFrom(f, n + 1)
  }

  lemma {:induction false} UpFromSplit(f: Fe, n: nat)
    requires n <= 10
    ensures ValTo(Wide(f), n) + W(n) * UpFrom(f, n) == FeVal(f)
    decreases 10 - n
  {
    if n < 10 {
      UpFromSplit(f, n + 1);
      NextLimb(f, n);
      Step(n);
      var w, d, u := W(n), Radix(n), UpFrom(f, n + 1);
      hide W, ValTo, Radix, FeVal;
      Distribute(w, f[n] as int, d * u);
      MulAssoc(w, d, u);
      assert w * f[n] as int == f[n] as int * w;
    }
  }

  lemma {:induction false} UpFromNonNegative(f: Fe, n: nat)
    requires n <= 10 && FeDigits(f, 10)
    ensures 0 <= UpFrom(f, n)
    decreases 10 - n
  {
    if n < 10 { UpFromNonNegative(f, n + 1); }
  }

  /** The digits are the bit fields of the number. */
  lemma DigitIsField(f: Fe, v: nat, n: nat)
    requires n < 10 && FeDigits(f, 10) && FeVal(f) == v
    ensures f[n] as int == Bits(v, Bit(n), Width(n))
    ensures n == 9 ==> f[n] as int == Shr(v, Bit(n))
  {
    UpFromSplit(f, n);
    UpFromNonNegative(f, n + 1);
    UpFromNonNegative(f, n);
    DigitsRange(f, n);
    WeightPow(n);
    PowRadix();
    var u, t := UpFrom(f, n), UpFrom(f, n + 1);
    assert u == f[n] as int + Radix(n) * t && (n == 9 ==> t == 0);
    assert Radix(n) == Pow2(Width(n));
    hide FeVal, W, ValTo, UpFrom, Pow2, Bit;
    SplitUnique(v, Bit(n), ValTo(Wide(f), n), u);
    SplitUnique(u, Width(n), f[n] as int, t);
    ShrZeroBits(u);
  }
}
