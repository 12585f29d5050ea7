/** Exclusive or, and, and the lowest set bit of natural numbers. */
module BitOps {
  import opened Arith

  /** The lowest bits differ. */
  function Differs(x: nat, y: nat): nat { if x % 2 == y % 2 then 0 else 1 }

  /** Bitwise exclusive or. */
  function Xor(x: nat, y: nat): nat
    decreases x + y
  {
    if x == 0 && y == 0 then 0 else Differs(x, y) + 2 * Xor(x / 2, y / 2)
  }

  /** Bitwise and. */
  function And(x: nat, y: nat): nat {
    if x == 0 then 0 else (x % 2) * (y % 2) + 2 * And(x / 2, y / 2)
  }

  lemma FirstBit(x: nat, y: nat)
    ensures Xor(x, y) == Differs(x, y) + 2 * Xor(x / 2, y / 2)
  {
    if x == 0 && y == 0 { assert Xor(0, 0) == 0; }
  }

  lemma Digit(b: nat, n: nat)
    requires b <= 1
    ensures (b + 2 * n) % 2 == b && (b + 2 * n) / 2 == n
  {
  }

  lemma LastBit(x: nat, y: nat)
    ensures Xor(x, y) % 2 == Differs(x, y) && Xor(x, y) / 2 == Xor(x / 2, y / 2)
  {
    hide Xor;
    FirstBit(x, y);
    Digit(Differs(x, y), Xor(x / 2, y / 2));
  }

  lemma {:induction false} XorTwice(x: nat, y: nat)
    ensures Xor(x, Xor(x, y)) == y
    decreases x + y
  {
    if x != 0 || y != 0 {
      hide Xor;
      var z := Xor(x, y);
      XorTwice(x / 2, y / 2);
      LastBit(x, y);
      LastBit(x, z);
      Digit(y % 2, y / 2);
    }
  }

  lemma {:induction false} XorNothing(x: nat)
    ensures Xor(x, 0) == x
  {
    if x != 0 { XorNothing(x / 2); }
  }

  lemma {:induction false} XorBelow(x: nat, y: nat, k: nat)
    requires x < Pow2(k) && y < Pow2(k)
    ensures Xor(x, y) < Pow2(k)
  {
    if k > 0 { XorBelow(x / 2, y / 2, k - 1); }
  }

  lemma {:induction false} XorZero(x: nat, y: nat)
    ensures Xor(x, y) == 0 <==> x == y
    decreases x + y
  {
    if x != 0 || y != 0 {
      hide Xor;
      XorZero(x / 2, y / 2);
      FirstBit(x, y);
      Digit(x % 2, x / 2);
      Digit(y % 2, y / 2);
    }
  }

  lemma {:induction false} AndOnes(y: nat, k: nat)
    requires y < Pow2(k)
    ensures And(Pow2(k) - 1, y) == y
  {
    if k > 0 {
      assert (Pow2(k) - 1) / 2 == Pow2(k - 1) - 1 && (Pow2(k) - 1) % 2 == 1;
      AndOnes(y / 2, k - 1);
    }
  }

  /** Low and high parts do not mix. */
  lemma {:induction false} XorParts(a: nat, x: nat, b: nat, y: nat, k: nat)
    requires a < Pow2(k) && b < Pow2(k)
    ensures Xor(a + Pow2(k) * x, b + Pow2(k) * y) == Xor(a, b) + Pow2(k) * Xor(x, y)
  {
    hide Xor, Pow2;
    Smallest();
    if k > 0 {
      var p := Pow2(k - 1);
      PowNext(k - 1);
      XorParts(a / 2, x, b / 2, y, k - 1);
      MulAssoc(2, p, x);
      MulAssoc(2, p, y);
      MulAssoc(2, p, Xor(x, y));
      XorStep(a, p * x, b, p * y, p * Xor(x, y));
    }
  }

  lemma Smallest()
    ensures Pow2(0) == 1 && Xor(0, 0) == 0 && LowestBit(1) == 0
  {
  }

  lemma XorStep(a: nat, u: nat, b: nat, v: nat, w: nat)
    requires Xor(a / 2 + u, b / 2 + v) == Xor(a / 2, b / 2) + w
    ensures Xor(a + 2 * u, b + 2 * v) == Xor(a, b) + 2 * w
  {
    hide Xor;
    FirstBit(a + 2 * u, b + 2 * v);
    FirstBit(a, b);
    Halves(a, u);
    Halves(b, v);
  }

  lemma Halves(a: nat, u: nat)
    ensures (a + 2 * u) / 2 == a / 2 + u && (a + 2 * u) % 2 == a % 2
  {
  }

  //// The lowest set bit

  function LowestBit(x: nat): nat
    requires x > 0
  {
    if x % 2 == 1 then 0 else 1 + LowestBit(x / 2)
  }

  lemma {:induction false} LowestBelow(x: nat, n: nat)
    requires 0 < x < Pow2(n)
    ensures LowestBit(x) < n
    decreases n
  {
    if x % 2 == 0 { LowestBelow(x / 2, n - 1); }
  }

  /** Zeros below move it up. */
  lemma {:induction false} LowestShifted(x: nat, k: nat)
    requires x > 0
    ensures Pow2(k) * x > 0 && LowestBit(Pow2(k) * x) == k + LowestBit(x)
  {
    if k == 0 {
      assert Pow2(k) == 1;
    } else {
      LowestShifted(x, k - 1);
      PowNext(k - 1);
      hide Pow2;
      MulAssoc(2, Pow2(k - 1), x);
      Doubled(Pow2(k - 1) * x);
    }
  }

  lemma Doubled(x: nat)
    requires x > 0
    ensures LowestBit(2 * x) == 1 + LowestBit(x)
  {
    Halves(0, x);
  }

  /** Higher bits do not matter. */
  lemma {:induction false} LowestOfParts(a: nat, x: nat, k: nat)
    requires 0 < a < Pow2(k)
    ensures LowestBit(a + Pow2(k) * x) == LowestBit(a)
  {
    var p := Pow2(k - 1);
    PowNext(k - 1);
    if a % 2 == 0 { LowestOfParts(a / 2, x, k - 1); }
    hide Pow2;
    MulAssoc(2, p, x);
    Halves(a, p * x);
  }

  //// Shifting in 32 bits

  const WORD: nat := 0x1_0000_0000

  /** n << s */
  function Shl(n: nat, s: nat): nat
    decreases s
  {
    if s == 0 then n else Shl(2 * n % WORD, s - 1)
  }

  lemma WordPower()
    ensures Pow2(31) == 0x8000_0000 && Pow2(32) == WORD
  {
    Pow2Small();
    Pow2Add(16, 15);
    Pow2Add(16, 16);
    assert Pow2(15) == 0x8000;
  }

  lemma {:induction false} ShlZero(s: nat)
    ensures Shl(0, s) == 0
  {
    if s > 0 { ShlZero(s - 1); }
  }

  /** One place: the lowest bit moves up, or was the top bit. */
  lemma ShlOne(n: nat)
    requires 0 < n < WORD
    ensures LowestBit(n) < 32
    ensures var y := 2 * n % WORD; if LowestBit(n) == 31 then y == 0 else y > 0 && LowestBit(y) == LowestBit(n) + 1
  {
    hide Pow2, LowestBit;
    WordPower();
    Smallest();
    LowestBelow(n, 32);
    if n < 0x8000_0000 {
      LowestBelow(n, 31);
      Doubled(n);
    } else {
      var m := n - 0x8000_0000;
      assert 2 * n % WORD == 2 * m;
      if m == 0 {
        LowestShifted(1, 31);
      } else {
        LowestOfParts(m, 1, 31);
        LowestBelow(m, 31);
        Doubled(m);
      }
    }
  }

  /** The lowest bit moves up, or everything is lost. */
  lemma {:induction false} ShlLowest(n: nat, s: nat)
    requires 0 < n < WORD
    ensures Shl(n, s) < WORD
    ensures if LowestBit(n) + s < 32 then Shl(n, s) > 0 && LowestBit(Shl(n, s)) == LowestBit(n) + s else Shl(n, s) == 0
    decreases s
  {
    ShlOne(n);
    hide LowestBit;
    if s > 0 {
      var y := 2 * n % WORD;
      if y == 0 { ShlZero(s - 1); } else { ShlLowest(y, s - 1); }
    }
  }
}
