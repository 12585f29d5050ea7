/** The rounding carries that end fe_mul, fe_sq, fe_sq2 and fe_frombytes. */
module Ed25519Carry {
  import opened Arith
  import opened Congruence
  import opened Ints
  import opened Ed25519Field

  /** |x| <= m */
  ghost predicate Abs(x: int, m: int) { -m <= x <= m }

  /** x splits into a remainder around zero and a carry, in limb i. */
  ghost predicate Split(i: nat, x: int, low: int, carry: int) {
    if i % 2 == 0 then x == low + 0x400_0000 * carry && -0x200_0000 <= low < 0x200_0000
    else x == low + 0x200_0000 * carry && -0x100_0000 <= low < 0x100_0000
  }

  method CarryOut(x: int64, i: nat) returns (low: int64, carry: int64)
    requires Abs(x as int, 0x7F00_0000_0000_0000)
    ensures Split(i, x as int, low as int, carry as int) && Abs(carry as int, 0x80_0000_0000)
  {
    if i % 2 == 0 {
      carry := (x + 0x200_0000) / 0x400_0000;
      low := x - carry * 0x400_0000;
    } else {
      carry := (x + 0x100_0000) / 0x200_0000;
      low := x - carry * 0x200_0000;
    }
  }

  /** Carries limb i into limb i + 1. */
  method Carry(h: seq<int64>, i: nat) returns (r: seq<int64>)
    requires |h| == 10 && i < 9
    requires Abs(h[i] as int, 0x7F00_0000_0000_0000) && Abs(h[i + 1] as int, 0x7F00_0000_0000_0000)
    ensures |r| == 10 && r == h[i := r[i]][i + 1 := r[i + 1]]
    ensures Split(i, h[i] as int, r[i] as int, r[i + 1] as int - h[i + 1] as int)
    ensures ValTo(r, 10) == ValTo(h, 10)
  {
    var low, carry := CarryOut(h[i], i);
    var t := h[i + 1 := h[i + 1] + carry];
    r := t[i := low];
    ValToUpdate(h, 10, i + 1, t[i + 1]);
    ValToUpdate(t, 10, i, low);
    hide ValTo;
    CarryKeeps(i, h[i] as int, low as int, carry as int);
  }

  lemma CarryKeeps(i: nat, x: int, low: int, c: int)
    requires Split(i, x, low, c)
    ensures c * W(i + 1) + (low - x) * W(i) == 0
  {
    var d := Radix(i);
    assert x - low == c * d;
    assert c * (W(i) * d) == c * d * W(i);
    assert (low - x) * W(i) == -(c * d * W(i));
  }

  /** Carries limb 9 into limb 0, since 2^255 is congruent to 19. */
  method Wrap(h: seq<int64>) returns (r: seq<int64>, ghost c: int)
    requires |h| == 10 && Abs(h[9] as int, 0x7F00_0000_0000_0000) && Abs(h[0] as int, 0x7000_0000_0000_0000)
    ensures |r| == 10 && r == h[0 := r[0]][9 := r[9]]
    ensures Split(9, h[9] as int, r[9] as int, c) && r[0] as int == h[0] as int + 19 * c
    ensures Congruent(ValTo(r, 10), ValTo(h, 10), P)
  {
    var low, carry := CarryOut(h[9], 9);
    c := carry as int;
    var t := h[0 := h[0] + carry * 19];
    r := t[9 := low];
    ValToUpdate(h, 10, 0, t[0]);
    ValToUpdate(t, 10, 9, low);
    WeightValues();
    hide ValTo, W;
    Less(ValTo(r, 10), ValTo(h, 10), carry as int, P) by { TimesP(carry as int); }
  }

  lemma TimesP(c: int)
    ensures P * c == 0x7fffffffffffffffffffffffffffffffffffffffffffffffffffffffffffffed * c
  {
  }

  lemma WeightValues()
    ensures W(0) == 1
    ensures W(9) == 0x4000000000000000000000000000000000000000000000000000000000
    ensures W(10) == 0x8000000000000000000000000000000000000000000000000000000000000000
  {
    assert W(2) == 0x8_0000_0000_0000;
    assert W(4) == 0x40_0000_0000_0000_0000_0000_0000;
    assert W(6) == 0x200000000000000000000000000000000000000;
    assert W(8) == 0x1000000000000000000000000000000000000000000000000000;
  }

  //// The carry chain of a product

  ghost predicate AllAbs(h: seq<int64>, m: int) {
    forall k :: 0 <= k < |h| ==> Abs(h[k] as int, m)
  }

  /** |h| bounded by 1.01*2^25, 1.01*2^24, 1.01*2^25, ... */
  ghost predicate Reduced(h: seq<int64>) {
    forall k :: 0 <= k < |h| ==> Abs(h[k] as int, if k % 2 == 0 then 33889976 else 16944988)
  }

  /** Carries out of limbs 0, 4, 1, 5, 2, 6. */
  method FirstCarries(h: seq<int64>) returns (r: seq<int64>)
    requires |h| == 10 && AllAbs(h, 0x7600_0000_0000_0000)
    ensures |r| == 10 && ValTo(r, 10) == ValTo(h, 10)
    ensures Abs(r[0] as int, 0x200_0000) && Abs(r[1] as int, 0x100_0000) && Abs(r[2] as int, 0x200_0000)
    ensures Abs(r[4] as int, 0x200_0000) && Abs(r[5] as int, 0x100_0000) && Abs(r[6] as int, 0x200_0000)
    ensures Abs(r[3] as int, 0x7700_0000_0000_0000) && Abs(r[7] as int, 0x7700_0000_0000_0000)
    ensures Abs(r[8] as int, 0x7700_0000_0000_0000) && Abs(r[9] as int, 0x7700_0000_0000_0000)
  {
    hide ValTo;
    r := Carry(h, 0);
    r := Carry(r, 4);
    r := Carry(r, 1);
    r := Carry(r, 5);
    r := Carry(r, 2);
    r := Carry(r, 6);
  }

  /** Carries out of limbs 3, 7, 4, 8, 9, 0. */
  method LastCarries(h: seq<int64>) returns (r: seq<int64>)
    requires |h| == 10
    requires Abs(h[0] as int, 0x200_0000) && Abs(h[1] as int, 0x100_0000) && Abs(h[2] as int, 0x200_0000)
    requires Abs(h[4] as int, 0x200_0000) && Abs(h[5] as int, 0x100_0000) && Abs(h[6] as int, 0x200_0000)
    requires Abs(h[3] as int, 0x7700_0000_0000_0000) && Abs(h[7] as int, 0x7700_0000_0000_0000)
    requires Abs(h[8] as int, 0x7700_0000_0000_0000) && Abs(h[9] as int, 0x7700_0000_0000_0000)
    ensures |r| == 10 && Reduced(r) && Congruent(ValTo(r, 10), ValTo(h, 10), P)
  {
    hide ValTo, Congruent;
    r := Carry(h, 3);
    r := Carry(r, 7);
    r := Carry(r, 4);
    r := Carry(r, 8);
    ghost var c;
    r, c := Wrap(r);
    r := Carry(r, 0);
  }
}
