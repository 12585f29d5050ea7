/** fe_invert and fe_pow22523 of ed25519/src/fe.c. */
module Ed25519Invert {
  import opened Arith
  import opened Congruence
  import opened Ints
  import opened Ed25519Field
  import opened Ed25519FieldMul
  import opened Ed25519FieldOps
  import opened Powers

  /** The powers of two that the squaring loops multiply exponents by. */
  lemma Table(k: nat)
    requires k == 5
    ensures Pow2(1) == 2 && Pow2(2) == 4 && Pow2(k) == 32 && Pow2(2 * k) == 1024 && Pow2(4 * k) == 0x10_0000
    ensures Pow2(10 * k) == 0x4_0000_0000_0000 && Pow2(20 * k) == 0x10_0000_0000_0000_0000_0000_0000
  {
    assert Pow2(k) == 32 && Pow2(1) == 2 && Pow2(2) == 4;
    hide Pow2;
    Pow2Add(k, k);
    Pow2Add(2 * k, 2 * k);
    Pow2Add(4 * k, k);
    Pow2Add(5 * k, 5 * k);
    Pow2Add(10 * k, 10 * k);
  }

  //// The part that both chains share

  /** z^(2^50 - 1), from z^31. */
  method ChainMiddle(t1: array<int32>, t2: array<int32>, t3: array<int32>, ghost x: int)
    requires Holds(t1, x, 31) && t2.Length == 10 && t3.Length == 10
    requires t1 != t2 && t1 != t3 && t2 != t3
    modifies t1, t2, t3
    ensures Holds(t1, x, 0x3_FFFF_FFFF_FFFF)
  {
    ghost var k := 5;
    Table(k);
    hide Holds, Pow2;
    Squares(t2, t1, 5, x, 31, 0x3E0);
    Mul(t1, t2, t1, x, 0x3E0, 31);
    Squares(t2, t1, 10, x, 0x3FF, 0xF_FC00);
    Mul(t2, t2, t1, x, 0xF_FC00, 0x3FF);
    Squares(t3, t2, 20, x, 0xF_FFFF, 0xFF_FFF0_0000);
    Mul(t2, t3, t2, x, 0xFF_FFF0_0000, 0xF_FFFF);
    Squares(t2, t2, 10, x, 0xFF_FFFF_FFFF, 0x3_FFFF_FFFF_FC00);
    Mul(t1, t2, t1, x, 0x3_FFFF_FFFF_FC00, 0x3FF);
  }

  /** z^(2^250 - 1), from z^(2^50 - 1). */
  method ChainLast(t1: array<int32>, t2: array<int32>, t3: array<int32>, ghost x: int)
    requires Holds(t1, x, 0x3_FFFF_FFFF_FFFF) && t2.Length == 10 && t3.Length == 10
    requires t1 != t2 && t1 != t3 && t2 != t3
    modifies t1, t2, t3
    ensures Holds(t1, x, 0x3FFFFFFFFFFFFFFFFFFFFFFFFFFFFFFFFFFFFFFFFFFFFFFFFFFFFFFFFFFFFFF)
  {
    ghost var k := 5;
    Table(k);
    hide Holds, Pow2;
    Squares(t2, t1, 50, x, 0x3_FFFF_FFFF_FFFF, 0xFFFFFFFFFFFFC000000000000);
    Mul(t2, t2, t1, x, 0xFFFFFFFFFFFFC000000000000, 0x3_FFFF_FFFF_FFFF);
    Squares(t3, t2, 100, x, 0xFFFFFFFFFFFFFFFFFFFFFFFFF,
            0xFFFFFFFFFFFFFFFFFFFFFFFFF0000000000000000000000000);
    Mul(t2, t3, t2, x, 0xFFFFFFFFFFFFFFFFFFFFFFFFF0000000000000000000000000, 0xFFFFFFFFFFFFFFFFFFFFFFFFF);
    Squares(t2, t2, 50, x, 0xFFFFFFFFFFFFFFFFFFFFFFFFFFFFFFFFFFFFFFFFFFFFFFFFFF,
            0x3FFFFFFFFFFFFFFFFFFFFFFFFFFFFFFFFFFFFFFFFFFFFFFFFFC000000000000);
    Mul(t1, t2, t1, x, 0x3FFFFFFFFFFFFFFFFFFFFFFFFFFFFFFFFFFFFFFFFFFFFFFFFFC000000000000, 0x3_FFFF_FFFF_FFFF);
  }

  //// fe_invert

  /** z^11 and z^31. */
  method InvertStart(z: array<int32>, t0: array<int32>, t1: array<int32>, t2: array<int32>, ghost x: int)
    requires Holds(z, x, 1) && t0.Length == 10 && t1.Length == 10 && t2.Length == 10
    requires t0 != z && t1 != z && t2 != z && t0 != t1 && t0 != t2 && t1 != t2
    modifies t0, t1, t2
    ensures Holds(t0, x, 11) && Holds(t1, x, 31)
  {
    ghost var k := 5;
    Table(k);
    hide Holds, Pow2;
    Squares(t0, z, 1, x, 1, 2);
    Squares(t1, t0, 2, x, 2, 8);
    Mul(t1, z, t1, x, 1, 8);
    Mul(t0, t0, t1, x, 2, 9);
    Squares(t2, t0, 1, x, 11, 22);
    Mul(t1, t1, t2, x, 9, 22);
  }

  /** fe_invert: z^(p - 2); out may be z. */
  method FeInvert(out: array<int32>, z: array<int32>)
    requires out.Length == 10 && z.Length == 10 && Loose(z[..])
    modifies out
    ensures Tight(out[..]) && Congruent(FeVal(out[..]), Power(old(FeVal(z[..])), P - 2), P)
  {
    ghost var x := FeVal(z[..]);
    PowerOne(x);
    var t0, t1, t2, t3 := new int32[10], new int32[10], new int32[10], new int32[10];
    assert Holds(z, x, 1);
    hide FeVal, Congruent, Loose, Tight, Power;
    InvertStart(z, t0, t1, t2, x);
    ChainMiddle(t1, t2, t3, x);
    ChainLast(t1, t2, t3, x);
    InvertEnd(out, t0, t1, x);
  }

  method InvertEnd(out: array<int32>, t0: array<int32>, t1: array<int32>, ghost x: int)
    requires Holds(t0, x, 11) && t0 != t1 && out.Length == 10
    requires Holds(t1, x, 0x3FFFFFFFFFFFFFFFFFFFFFFFFFFFFFFFFFFFFFFFFFFFFFFFFFFFFFFFFFFFFFF)
    modifies out, t1
    ensures Tight(out[..]) && Holds(out, x, P - 2)
  {
    ghost var k := 5;
    Table(k);
    hide Holds, Pow2, Tight;
    Squares(t1, t1, 5, x, 0x3FFFFFFFFFFFFFFFFFFFFFFFFFFFFFFFFFFFFFFFFFFFFFFFFFFFFFFFFFFFFFF,
            0x7FFFFFFFFFFFFFFFFFFFFFFFFFFFFFFFFFFFFFFFFFFFFFFFFFFFFFFFFFFFFFE0);
    Mul(out, t1, t0, x, 0x7FFFFFFFFFFFFFFFFFFFFFFFFFFFFFFFFFFFFFFFFFFFFFFFFFFFFFFFFFFFFFE0, 11);
  }

  lemma PowerOne(x: int)
    ensures Power(x, 1) == x && Congruent(x, Power(x, 1), P)
  {
    assert Power(x, 0) == 1;
    Reflexive(x, P);
  }

  //// fe_pow22523

  /** z^31 in t0. */
  method PowStart(z: array<int32>, t0: array<int32>, t1: array<int32>, ghost x: int)
    requires Holds(z, x, 1) && t0.Length == 10 && t1.Length == 10
    requires t0 != z && t1 != z && t0 != t1
    modifies t0, t1
    ensures Holds(t0, x, 31)
  {
    ghost var k := 5;
    Table(k);
    hide Holds, Pow2;
    Squares(t0, z, 1, x, 1, 2);
    Squares(t1, t0, 2, x, 2, 8);
    Mul(t1, z, t1, x, 1, 8);
    Mul(t0, t0, t1, x, 2, 9);
    Squares(t0, t0, 1, x, 11, 22);
    Mul(t0, t1, t0, x, 9, 22);
  }

  /** fe_pow22523: z^(2^252 - 3) = z^((p - 5) / 8); out may be z. */
  method FePow22523(out: array<int32>, z: array<int32>)
    requires out.Length == 10 && z.Length == 10 && Loose(z[..])
    modifies out
    ensures Tight(out[..]) && Congruent(FeVal(out[..]), Power(old(FeVal(z[..])), (P - 5) / 8), P)
  {
    ghost var x := FeVal(z[..]);
    PowerOne(x);
    var t0, t1, t2 := new int32[10], new int32[10], new int32[10];
    assert Holds(z, x, 1);
    hide FeVal, Congruent, Loose, Tight, Power;
    PowStart(z, t0, t1, x);
    ChainMiddle(t0, t1, t2, x);
    ChainLast(t0, t1, t2, x);
    PowEnd(out, t0, z, x);
  }

  method PowEnd(out: array<int32>, t0: array<int32>, z: array<int32>, ghost x: int)
    requires Holds(z, x, 1) && t0 != z && out.Length == 10
    requires Holds(t0, x, 0x3FFFFFFFFFFFFFFFFFFFFFFFFFFFFFFFFFFFFFFFFFFFFFFFFFFFFFFFFFFFFFF)
    modifies out, t0
    ensures Tight(out[..]) && Holds(out, x, (P - 5) / 8)
  {
    ghost var k := 5;
    Table(k);
    hide Holds, Pow2, Tight;
    Squares(t0, t0, 2, x, 0x3FFFFFFFFFFFFFFFFFFFFFFFFFFFFFFFFFFFFFFFFFFFFFFFFFFFFFFFFFFFFFF,
            0xFFFFFFFFFFFFFFFFFFFFFFFFFFFFFFFFFFFFFFFFFFFFFFFFFFFFFFFFFFFFFFC);
    Mul(out, t0, z, x, 0xFFFFFFFFFFFFFFFFFFFFFFFFFFFFFFFFFFFFFFFFFFFFFFFFFFFFFFFFFFFFFFC, 1);
  }
}
