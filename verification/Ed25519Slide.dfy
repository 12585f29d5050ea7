/** slide of ed25519/src/ge.c: signed odd digits for double-and-add. */
module Ed25519Slide {
  import opened Arith
  import opened Bytes
  import opened Ints

  /** The number that the digits below n stand for. */
  ghost function Digits(r: seq<int8>, n: nat): int
    requires n <= |r|
  {
    if n == 0 then 0 else Digits(r, n - 1) + r[n - 1] as int * Pow2(n - 1)
  }

  lemma {:induction false} DigitsUpdate(r: seq<int8>, n: nat, k: nat, x: int8)
    requires n <= |r| && k < |r|
    ensures Digits(r[k := x], n) == Digits(r, n) + if k < n then (x as int - r[k] as int) * Pow2(k) else 0
  {
    if n > 0 {
      DigitsUpdate(r, n - 1, k, x);
      hide Pow2;
      if k == n - 1 { Regroup(x as int, r[k] as int, Pow2(k)); }
    }
  }

  ghost predicate Within(x: int, m: int) { -m <= x <= m }

  ghost predicate Binary(r: seq<int8>, lo: nat) {
    forall k :: lo <= k < |r| ==> r[k] == 0 || r[k] == 1
  }

  /** A digit of the recoding: zero, or odd in [-15, 15]. */
  ghost predicate Digit(x: int8) { x == 0 || (x % 2 == 1 && -15 <= x <= 15) }

  ghost predicate Recoded(r: seq<int8>, hi: nat) {
    forall k :: 0 <= k < hi && k < |r| ==> Digit(r[k])
  }

  ghost predicate Ones(r: seq<int8>, lo: nat) {
    forall k :: lo <= k < |r| ==> r[k] == 1
  }

  /** s and r agree from lo up to hi. */
  ghost predicate Same(s: seq<int8>, r: seq<int8>, lo: nat, hi: nat)
    requires |s| == |r| && hi <= |s|
  {
    forall k :: lo <= k < hi ==> s[k] == r[k]
  }

  /** Adds 2^from to the binary digits from there on; drops a carry off the end. */
  method Ripple(r: array<int8>, from: nat) returns (lost: bool)
    requires r.Length == 256 && from < 256 && Binary(r[..], from)
    modifies r
    ensures Binary(r[..], from) && Same(r[..], old(r[..]), 0, from)
    ensures old(r[from]) == 1 ==> r[from] == 0
    ensures lost == old(Ones(r[..], from)) && (lost ==> Zeros(r[..], from, 256))
    ensures Digits(r[..], 256) == old(Digits(r[..], 256)) + Pow2(from) - (if lost then Pow2(256) else 0)
  {
    ghost var s := r[..];
    ghost var n := r.Length;
    hide Pow2, Digits, Ones;
    for k := from to 256
      invariant Same(r[..], s, 0, from) && Same(r[..], s, k, 256)
      invariant forall j :: from <= j < k ==> s[j] == 1 && r[j] == 0
      invariant Digits(r[..], n) == Digits(s, n) + Pow2(from) - Pow2(k)
    {
      ghost var t := r[..];
      PowNext(k);
      if r[k] == 0 {
        r[k] := 1;
        assert r[..] == t[k := 1];
        DigitsUpdate(t, n, k, 1);
        NotOnes(s, from, k);
        return false;
      }
      r[k] := 0;
      assert r[..] == t[k := 0];
      DigitsUpdate(t, n, k, 0);
    }
    lost := true;
    AllOnes(s, from);
  }

  lemma NotOnes(s: seq<int8>, from: nat, k: nat)
    requires from <= k < |s| && s[k] == 0
    ensures !Ones(s, from)
  {
  }

  lemma AllOnes(s: seq<int8>, from: nat)
    requires forall j :: from <= j < |s| ==> s[j] == 1
    ensures Ones(s, from)
  {
  }

  ghost predicate Zeros(r: seq<int8>, lo: nat, hi: nat) {
    forall k :: lo <= k < hi && k < |r| ==> r[k] == 0
  }

  /** r[i] += 1 << b; r[i + b] = 0, where r[i + b] is 1. */
  method Absorb(r: array<int8>, i: nat, b: nat)
    requires r.Length == 256 && 1 <= b <= 3 && i + b < 256 && r[i + b] == 1
    requires 1 <= r[i] as int < Pow2(b) && r[i] % 2 == 1
    modifies r
    ensures r[..] == old(r[..])[i := r[i]][i + b := 0]
    ensures 1 <= r[i] as int < Pow2(b + 1) && r[i] % 2 == 1
    ensures Digits(r[..], 256) == old(Digits(r[..], 256))
  {
    SmallPowers();
    ghost var s := r[..];
    var x: int8 := if b == 1 then 2 else if b == 2 then 4 else 8;
    assert x as int == Pow2(b) && 2 * x as int == Pow2(b + 1);
    AbsorbValue(s, i, b, x);
    hide Digits, Pow2;
    r[i] := r[i] + x;
    r[i + b] := 0;
    assert r[..] == s[i := s[i] + x][i + b := 0];
  }

  lemma AbsorbValue(s: seq<int8>, i: nat, b: nat, x: int8)
    requires |s| == 256 && i + b < 256 && 1 <= b && s[i + b] == 1 && x as int == Pow2(b) && 1 <= s[i] <= 100 && x <= 8
    ensures Digits(s[i := s[i] + x][i + b := 0], 256) == Digits(s, 256)
  {
    hide Digits, Pow2;
    var t := s[i := s[i] + x];
    DigitsUpdate(s, |s|, i, s[i] + x);
    DigitsUpdate(t, |t|, i + b, 0);
    Pow2Add(i, b);
  }

  lemma SmallPowers()
    ensures Pow2(1) == 2 && Pow2(2) == 4 && Pow2(3) == 8 && Pow2(4) == 16 && Pow2(5) == 32 && Pow2(6) == 64
  {
  }

  /** r[i] -= 16 and a carry into r[i + 4], where r[i + 4] is 1. */
  method Borrow(r: array<int8>, i: nat) returns (lost: bool)
    requires r.Length == 256 && i + 4 < 256 && r[i + 4] == 1 && Binary(r[..], i + 4)
    requires 1 <= r[i] <= 15 && r[i] % 2 == 1
    modifies r
    ensures Binary(r[..], i + 4) && r[i + 4] == 0 && -15 <= r[i] <= -1 && r[i] % 2 == 1
    ensures Same(r[..], old(r[..]), 0, i) && Same(r[..], old(r[..]), i + 1, i + 4)
    ensures lost == old(Ones(r[..], i + 4)) && (lost ==> Zeros(r[..], i + 4, 256))
    ensures Digits(r[..], 256) == old(Digits(r[..], 256)) - (if lost then Pow2(256) else 0)
  {
    ghost var s, n := r[..], r.Length;
    r[i] := r[i] - 16;
    ghost var t := r[..];
    assert t == s[i := s[i] - 16];
    OnesSame(s, t, i + 4);
    BorrowValue(s, t, i);
    hide Digits, Pow2, Ones;
    lost := Ripple(r, i + 4);
  }

  lemma OnesSame(s: seq<int8>, t: seq<int8>, lo: nat)
    requires |s| == |t| && lo <= |s| && Same(s, t, lo, |s|)
    ensures Ones(s, lo) == Ones(t, lo)
  {
    if Ones(s, lo) {
      assert forall k :: lo <= k < |s| ==> t[k] == s[k];
    }
  }

  lemma BorrowValue(s: seq<int8>, t: seq<int8>, i: nat)
    requires |s| == 256 && i < 252 && s[i] >= 1 && t == s[i := s[i] - 16]
    ensures Digits(t, 256) + Pow2(i + 4) == Digits(s, 256)
  {
    hide Digits, Pow2;
    assert Pow2(i + 4) == 16 * Pow2(i) by {
      SmallPowers();
      Pow2Add(i, 4);
    }
    DigitsUpdate(s, |s|, i, s[i] - 16);
    LessSixteen(s[i] as int, Pow2(i));
  }

  lemma LessSixteen(x: int, p: int)
    ensures (x - 16 - x) * p == -16 * p
  {
  }

  /** The digit that starts at i, where r[i] is 1. */
  method Window(r: array<int8>, i: nat) returns (lost: bool)
    requires r.Length == 256 && i < 256 && Recoded(r[..], i) && Binary(r[..], i) && r[i] == 1
    modifies r
    ensures Recoded(r[..], i + 1) && Binary(r[..], i + 1) && Same(r[..], old(r[..]), 0, i)
    ensures Zeros(r[..], i + 1, i + 4)
    ensures lost ==> i < 252 && old(Ones(r[..], i + 4)) && Zeros(r[..], i + 1, 256)
    ensures Digits(r[..], 256) == old(Digits(r[..], 256)) - (if lost then Pow2(256) else 0)
  {
    SmallPowers();
    hide Digits, Ones, Pow2;
    ghost var s := r[..];
    lost := false;
    var b := 1;
    while b <= 6 && i + b < 256
      invariant 1 <= b <= 7 && i + b <= 256
      invariant Binary(r[..], i + 1) && Same(r[..], s, 0, i) && Zeros(r[..], i + 1, i + b) && Digit(r[i])
      invariant b <= 4 ==> !lost && Same(r[..], s, i + b, 256) && 1 <= r[i] as int < Pow2(b)
      invariant lost ==> i < 252 && Ones(s, i + 4) && Zeros(r[..], i + 4, 256)
      invariant Digits(r[..], 256) == Digits(s, 256) - (if lost then Pow2(256) else 0)
    {
      if r[i + b] != 0 {
        var x := r[i + b] as int * Pow2(b);
        if r[i] as int + x <= 15 {
          Absorb(r, i, b);
        } else if r[i] as int - x >= -15 {
          OnesSame(r[..], s, i + 4);
          lost := Borrow(r, i);
        } else {
          break;
        }
      }
      b := b + 1;
    }
  }

  //// The bound that keeps the last carry inside

  lemma {:induction false} DigitsPrefix(r: seq<int8>, s: seq<int8>, n: nat)
    requires |r| == |s| && n <= |r| && Same(r, s, 0, n)
    ensures Digits(r, n) == Digits(s, n)
  {
    if n > 0 { DigitsPrefix(r, s, n - 1); }
  }

  /** Binary digits that are all one from m on. */
  lemma {:induction false} OnesSum(r: seq<int8>, lo: nat, m: nat, n: nat)
    requires lo <= m <= n <= |r| && Binary(r, lo) && (forall k :: m <= k < n ==> r[k] == 1)
    ensures Digits(r, n) >= Digits(r, lo) + Pow2(n) - Pow2(m)
  {
    if n > m {
      OnesSum(r, lo, m, n - 1);
      PowNext(n - 1);
    } else {
      BinarySum(r, lo, n);
    }
  }

  lemma {:induction false} BinarySum(r: seq<int8>, lo: nat, n: nat)
    requires lo <= n <= |r| && Binary(r, lo)
    ensures Digits(r, n) >= Digits(r, lo)
  {
    if n > lo {
      BinarySum(r, lo, n - 1);
      Pow2Positive(n - 1);
    }
  }

  /** A lost carry needs a number of 256 bits. */
  lemma LostIsLarge(r: seq<int8>, i: nat, n: nat)
    requires |r| == n == 256 && i < 252 && r[i] == 1 && Binary(r, i) && Ones(r, i + 4)
    requires Within(Digits(r, i), Pow2(i))
    ensures Digits(r, n) >= Pow2(n - 1)
  {
    assert Digits(r, i + 1) == Digits(r, i) + Pow2(i);
    OnesSum(r, i + 1, i + 4, n);
    Pow2Monotone(i + 4, n - 1);
    PowNext(n - 1);
  }

  /** The bits of a, one to a digit. */
  method Spread(r: array<int8>, a: seq<byte>)
    requires r.Length == 256 && |a| == 32
    modifies r
    ensures Binary(r[..], 0) && Digits(r[..], 256) == LoadLE(a)
  {
    hide Bits, LoadLE;
    for i := 0 to 256
      invariant forall k :: 0 <= k < i ==> (r[k] == 0 || r[k] == 1) && r[k] as int == Bits(LoadLE(a), k, 1)
    {
      ByteBit(a, i);
      r[i] := Bits(a[i / 8] as nat, i % 8, 1) as int8;
    }
    SpreadValue(r[..], LoadLE(a), r.Length);
    LoadBelow(a);
    BitsAll(LoadLE(a), 8 * |a|);
  }

  lemma ByteBit(a: seq<byte>, i: nat)
    requires i < 8 * |a|
    ensures Bits(a[i / 8] as nat, i % 8, 1) == Bits(LoadLE(a), i, 1) < 2
  {
    var k := i / 8;
    LoadField(a, k, 1);
    assert a[k..k + 1] == [a[k]] && LoadLE([a[k]]) == a[k] as nat;
    BitsOfBits(LoadLE(a), 8 * k, 8, i % 8, 1);
    BitsBelow(LoadLE(a), i, 1);
    assert Pow2(1) == 2;
  }

  lemma BitsAll(x: nat, n: nat)
    requires x < Pow2(n)
    ensures Bits(x, 0, n) == x
  {
    SplitUnique(x, n, x, 0);
  }

  lemma {:induction false} SpreadValue(r: seq<int8>, x: nat, n: nat)
    requires n <= |r| && forall k :: 0 <= k < n ==> r[k] as int == Bits(x, k, 1)
    ensures Digits(r, n) == Bits(x, 0, n)
  {
    if n > 0 {
      SpreadValue(r, x, n - 1);
      LowBits(x, n - 1);
      hide Bits, Pow2;
      assert r[n - 1] as int * Pow2(n - 1) == Pow2(n - 1) * Bits(x, n - 1, 1);
    } else {
      assert Bits(x, 0, 0) == 0;
    }
  }

  /** A digit at i after digits that amount to at most 2^i. */
  lemma NextBound(r: seq<int8>, i: nat)
    requires i < |r| && Within(Digits(r, i), Pow2(i)) && -15 <= r[i] <= 15
    ensures Within(Digits(r, i + 1), Pow2(i + 4))
  {
    Pow2Add(i, 4);
    SmallPowers();
    assert Digits(r, i + 1) == Digits(r, i) + r[i] as int * Pow2(i);
    hide Digits, Pow2;
    MulMono(r[i] as int, 15, Pow2(i));
    MulMono(-15, r[i] as int, Pow2(i));
  }

  /** slide */
  method Slide(r: array<int8>, a: seq<byte>)
    requires r.Length == 256 && |a| == 32
    modifies r
    ensures Recoded(r[..], 256)
    ensures Digits(r[..], 256) == LoadLE(a) || Digits(r[..], 256) == LoadLE(a) - Pow2(256)
    ensures LoadLE(a) < Pow2(255) ==> Digits(r[..], 256) == LoadLE(a)
  {
    Spread(r, a);
    ghost var lost, z, n := false, 0, r.Length;
    ghost var v := LoadLE(a);
    assert Within(Digits(r[..], 0), Pow2(0));
    hide LoadLE, Pow2, Digits, Ones, Within;
    for i := 0 to 256
      invariant Recoded(r[..], i) && Binary(r[..], i) && (lost ==> Zeros(r[..], i, 256))
      invariant Digits(r[..], n) == v - (if lost then Pow2(n) else 0)
      invariant lost ==> v >= Pow2(n - 1)
      invariant Within(Digits(r[..], i), Pow2(z)) && Zeros(r[..], i, z)
    {
      if r[i] != 0 {
        ghost var s := r[..];
        Tighten(Digits(s, i), z, i);
        lost := Window(r, i);
        if lost { LostIsLarge(s, i, n); }
        DigitsPrefix(r[..], s, i);
        NextBound(r[..], i);
        z := i + 4;
      } else {
        ZeroDigit(r[..], i);
      }
    }
  }

  lemma Tighten(x: int, z: nat, i: nat)
    requires z <= i && Within(x, Pow2(z))
    ensures Within(x, Pow2(i))
  {
    Pow2Monotone(z, i);
  }

  lemma ZeroDigit(r: seq<int8>, i: nat)
    requires i < |r| && r[i] == 0
    ensures Digits(r, i + 1) == Digits(r, i)
  {
  }
}
