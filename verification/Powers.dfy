/** Integer powers. */
module Powers {
  import opened Arith

  ghost function Power(z: int, e: nat): int { if e == 0 then 1 else z * Power(z, e - 1) }

  lemma {:induction false} PowerAdd(z: int, a: nat, b: nat)
    ensures Power(z, a + b) == Power(z, a) * Power(z, b)
  {
    if a > 0 {
      PowerAdd(z, a - 1, b);
      MulAssoc(z, Power(z, a - 1), Power(z, b));
    }
  }
}
