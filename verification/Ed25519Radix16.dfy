/** The radix-16 recoding of ge_scalarmult_base in ed25519/src/ge.c. */
module Ed25519Radix16 {
  import opened Arith
  import opened Bytes
  import opened Ints
  import opened Groups

  /** The number that the digits below n stand for. */
  ghost function Sum16(e: seq<int8>, n: nat): int
    requires n <= |e|
  {
    if n == 0 then 0 else Sum16(e, n - 1) + e[n - 1] as int * Pow2(4 * (n - 1))
  }

  lemma {:induction false} Sum16Update(e: seq<int8>, n: nat, k: nat, x: int8)
    requires n <= |e| && k < |e|
    ensures Sum16(e[k := x], n) == Sum16(e, n) + if k < n then (x as int - e[k] as int) * Pow2(4 * k) else 0
  {
    if n > 0 {
      Sum16Update(e, n - 1, k, x);
      hide Pow2;
      if k == n - 1 { Regroup(x as int, e[k] as int, Pow2(4 * k)); }
    }
  }

  lemma Pow16(k: nat)
    ensures Pow2(4 * (k + 1)) == 16 * Pow2(4 * k)
  {
    Pow2Add(4, 4 * k);
    assert Pow2(4) == 16 && 4 + 4 * k == 4 * (k + 1);
  }

  ghost predicate Nibbles(e: seq<int8>, lo: nat) {
    forall k :: lo <= k < |e| ==> 0 <= e[k] <= 15
  }

  ghost predicate Small(e: seq<int8>, hi: nat) {
    forall k :: 0 <= k < hi && k < |e| ==> -8 <= e[k] <= 8
  }

  /** Two nibbles of each byte. */
  method Split(a: seq<byte>, e: array<int8>)
    requires |a| == 32 && e.Length == 64
    modifies e
    ensures Nibbles(e[..], 0) && e[63] as int == a[31] as int / 16 && Sum16(e[..], 64) == LoadLE(a)
  {
    hide Sum16, Pow2;
    for i := 0 to 32
      invariant forall k :: 0 <= k < i ==> e[2 * k] as int == a[k] as int % 16 && e[2 * k + 1] as int == a[k] as int / 16
    {
      e[2 * i] := (a[i] as int % 16) as int8;
      e[2 * i + 1] := (a[i] as int / 16) as int8;
    }
    forall k | 0 <= k < 64 ensures 0 <= e[..][k] <= 15 {
      var j := k / 2;
      assert e[2 * j] as int == a[j] as int % 16 && e[2 * j + 1] as int == a[j] as int / 16;
      assert k == 2 * j || k == 2 * j + 1;
    }
    SplitValue(a, e[..], 32);
    assert a[..32] == a;
  }

  lemma {:induction false} SplitValue(a: seq<byte>, e: seq<int8>, n: nat)
    requires |a| == 32 && |e| == 64 && n <= 32
    requires forall k :: 0 <= k < n ==> e[2 * k] as int == a[k] as int % 16 && e[2 * k + 1] as int == a[k] as int / 16
    ensures Sum16(e, 2 * n) == LoadLE(a[..n])
  {
    if n > 0 {
      var m := n - 1;
      SplitValue(a, e, m);
      assert a[..n] == a[..m] + [a[m]];
      LoadConcat(a[..m], [a[m]]);
      assert LoadLE([a[m]]) == a[m] as nat;
      assert Sum16(e, 2 * n) == Sum16(e, 2 * m) + e[2 * m] as int * Pow2(8 * m) + e[2 * m + 1] as int * Pow2(4 * (2 * m + 1)) by {
        assert Sum16(e, 2 * n) == Sum16(e, 2 * m + 1) + e[2 * m + 1] as int * Pow2(4 * (2 * m + 1));
      }
      Pow16(2 * m);
      hide Pow2, Sum16, LoadLE;
      Nibble(a[m] as int, Pow2(8 * m));
    }
  }

  lemma Nibble(x: int, w: int)
    ensures x % 16 * w + x / 16 * (16 * w) == w * x
  {
    assert x == x / 16 * 16 + x % 16;
    Distribute(w, x / 16 * 16, x % 16);
    assert x / 16 * (16 * w) == w * (x / 16 * 16);
  }

  /** Signed digits in [-8, 8]. */
  method Recode(a: seq<byte>, e: array<int8>)
    requires |a| == 32 && a[31] <= 127 && e.Length == 64
    modifies e
    ensures Small(e[..], 64) && Sum16(e[..], 64) == LoadLE(a)
  {
    hide Sum16, Pow2, LoadLE;
    Split(a, e);
    var carry: int8 := 0;
    ghost var v, n := LoadLE(a), e.Length;
    for i := 0 to 63
      invariant Nibbles(e[..], i) && Small(e[..], i) && 0 <= carry <= 1 && e[63] <= 7
      invariant Sum16(e[..], n) + carry as int * Pow2(4 * i) == v
    {
      ghost var s := e[..];
      var x := e[i] + carry;
      var c := (x + 8) / 16;
      e[i] := x - 16 * c;
      assert e[..] == s[i := x - 16 * c];
      Sum16Update(s, n, i, x - 16 * c);
      Pow16(i);
      CarryStep(s[i] as int, carry as int, c as int, Pow2(4 * i));
      carry := c;
    }
    ghost var s := e[..];
    e[63] := e[63] + carry;
    assert e[..] == s[63 := s[63] + carry];
    Sum16Update(s, n, 63, s[63] + carry);
  }

  lemma CarryStep(x: int, carry: int, c: int, w: int)
    ensures (x + carry - 16 * c - x) * w + c * (16 * w) == carry * w
  {
    assert (carry - 16 * c) * w == carry * w - 16 * c * w;
    assert c * (16 * w) == 16 * c * w;
  }

  //// Two passes

  /** The digits at 2j + odd for j < n, each with weight 256^j. */
  ghost function HalfSum(e: seq<int8>, odd: nat, n: nat): int
    requires |e| == 64 && odd <= 1 && n <= 32
  {
    if n == 0 then 0 else HalfSum(e, odd, n - 1) + e[2 * (n - 1) + odd] as int * Pow2(8 * (n - 1))
  }

  /** Sixteen times the odd half and the even half make up the number. */
  lemma {:induction false} TwoHalves(e: seq<int8>, n: nat)
    requires |e| == 64 && n <= 32
    ensures Sum16(e, 2 * n) == 16 * HalfSum(e, 1, n) + HalfSum(e, 0, n)
  {
    if n > 0 {
      hide Pow2, Sum16;
      var m := n - 1;
      TwoHalves(e, m);
      TwoDigits(e, m);
    }
  }

  lemma TwoDigits(e: seq<int8>, m: nat)
    requires |e| == 64 && m < 32
    ensures Sum16(e, 2 * m + 2)
            == Sum16(e, 2 * m) + e[2 * m] as int * Pow2(8 * m) + 16 * (e[2 * m + 1] as int * Pow2(8 * m))
  {
    hide Pow2;
    NextDigit(e, 2 * m);
    NextDigit(e, 2 * m + 1);
    Pow16(2 * m);
    assert 4 * (2 * m) == 8 * m;
    var y, w := e[2 * m + 1] as int, Pow2(8 * m);
    assert y * (16 * w) == 16 * (y * w);
  }

  lemma NextDigit(e: seq<int8>, k: nat)
    requires k < |e|
    ensures Sum16(e, k + 1) == Sum16(e, k) + e[k] as int * Pow2(4 * k)
  {
    hide Pow2;
  }

  /** The two passes of ge_scalarmult_base, in any abelian group. */
  lemma TwoPasses<T(!new)>(g: Group<T>, e: seq<int8>, p: T)
    requires Abelian(g) && |e| == 64
    ensures Plus(g, Mul(g, 16, Mul(g, HalfSum(e, 1, 32), p)), Mul(g, HalfSum(e, 0, 32), p)) == Mul(g, Sum16(e, 64), p)
  {
    hide *;
    TwoHalves(e, 32);
    MulMul(g, 16, HalfSum(e, 1, 32), p);
    MulAdd(g, 16 * HalfSum(e, 1, 32), HalfSum(e, 0, 32), p);
  }
}
