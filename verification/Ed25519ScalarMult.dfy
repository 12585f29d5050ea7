/** ge_double_scalarmult_vartime of ed25519/src/ge.c. */
module Ed25519ScalarMult {
  import opened Arith
  import opened Bytes
  import opened Ints
  import opened Groups
  import opened Ed25519Field
  import opened Ed25519Points
  import opened Ed25519Codec
  import opened Ed25519Group
  import opened Ed25519Slide

  /** q caches (2k + 1) times a. */
  ghost predicate Odd(q: Cached, k: nat, g: Group<CurvePoint>, a: CurvePoint) {
    RepCached(q, Mul(g, 2 * k + 1, a))
  }

  ghost predicate OddTable(g: Group<CurvePoint>, t: array<Cached>, n: nat, a: CurvePoint)
    requires n <= t.Length
    reads t
  {
    forall k :: 0 <= k < n ==> Odd(t[k], k, g, a)
  }

  /** q holds k times a. */
  ghost predicate Multiple(q: Precomp, k: int, g: Group<CurvePoint>, a: CurvePoint) { RepPrecomp(q, Mul(g, k, a)) }

  /** The table Bi of odd multiples of the base point. */
  ghost predicate OddPrecomp(g: Group<CurvePoint>, t: seq<Precomp>, a: CurvePoint) {
    forall k :: 0 <= k < |t| ==> Multiple(t[k], 2 * k + 1, g, a)
  }

  lemma IsGroup(g: Group<CurvePoint>)
    requires Laws(g)
    ensures Abelian(g)
  {
  }

  lemma OddIs(q: Cached, k: nat, g: Group<CurvePoint>, a: CurvePoint)
    ensures Odd(q, k, g, a) <==> RepCached(q, Mul(g, 2 * k + 1, a))
  {
  }

  lemma EmptyTable(g: Group<CurvePoint>, t: array<Cached>, a: CurvePoint)
    ensures OddTable(g, t, 0, a)
  {
  }

  lemma TableAt(g: Group<CurvePoint>, t: array<Cached>, n: nat, k: nat, a: CurvePoint)
    requires k < n <= t.Length && OddTable(g, t, n, a)
    ensures Odd(t[k], k, g, a)
  {
    hide Odd;
  }

  lemma PrecompAt(g: Group<CurvePoint>, t: seq<Precomp>, k: nat, a: CurvePoint)
    requires k < |t| && OddPrecomp(g, t, a)
    ensures RepPrecomp(t[k], Mul(g, 2 * k + 1, a))
  {
    assert Multiple(t[k], 2 * k + 1, g, a);
  }

  method Store(t: array<Cached>, n: nat, q: Cached, ghost g: Group<CurvePoint>, ghost a: CurvePoint)
    requires n < t.Length && OddTable(g, t, n, a) && Odd(q, n, g, a)
    modifies t
    ensures OddTable(g, t, n + 1, a)
  {
    hide Odd;
    t[n] := q;
  }

  /** The next odd multiple: 2A more. */
  method NextOdd(A2: P3, q: Cached, ghost m: int, ghost g: Group<CurvePoint>, ghost a: CurvePoint) returns (r: Cached)
    requires Laws(g) && Rep3(A2, Mul(g, 2, a)) && RepCached(q, Mul(g, m, a))
    ensures RepCached(r, Mul(g, m + 2, a))
  {
    hide *;
    IsGroup(g);
    var s := Add(A2, q, g, Mul(g, 2, a), Mul(g, m, a));
    MulAdd(g, 2, m, a);
    var u := ToP3(s, g, Mul(g, m + 2, a));
    r := ToCached(u, g, Mul(g, m + 2, a));
  }

  method Twice(A: P3, ghost g: Group<CurvePoint>, ghost a: CurvePoint) returns (A2: P3)
    requires Laws(g) && Rep3(A, a)
    ensures Rep3(A2, Mul(g, 2, a)) && Mul(g, 1, a) == a
  {
    hide *;
    IsGroup(g);
    MulOne(g, a);
    MulAdd(g, 1, 1, a);
    var d := Double3(A, g, a);
    A2 := ToP3(d, g, Mul(g, 2, a));
  }

  /** A, 3A, 5A, ..., 15A */
  method OddMultiples(t: array<Cached>, A: P3, ghost g: Group<CurvePoint>, ghost a: CurvePoint)
    requires t.Length == 8 && Laws(g) && Rep3(A, a)
    modifies t
    ensures OddTable(g, t, 8, a)
  {
    hide *;
    EmptyTable(g, t, a);
    var first := ToCached(A, g, a);
    var A2 := Twice(A, g, a);
    OddIs(first, 0, g, a);
    Store(t, 0, first, g, a);
    for k := 0 to 7
      invariant OddTable(g, t, k + 1, a)
    {
      TableAt(g, t, k + 1, k, a);
      OddIs(t[k], k, g, a);
      var next := NextOdd(A2, t[k], 2 * k + 1, g, a);
      OddIs(next, k + 1, g, a);
      Store(t, k + 1, next, g, a);
    }
  }

  /** What Digit says about the entry a digit selects. */
  lemma Entry(d: int8)
    requires Digit(d) && d != 0
    ensures d > 0 ==> d / 2 < 8 && 2 * (d / 2) as int + 1 == d as int
    ensures d < 0 ==> -d / 2 < 8 && 2 * (-d / 2) as int + 1 == -(d as int)
  {
  }

  /** Adds d times a, for an odd or zero digit d. */
  method AddDigit(t: P1P1, d: int8, table: array<Cached>, ghost g: Group<CurvePoint>, ghost s: CurvePoint, ghost a: CurvePoint)
    returns (r: P1P1)
    requires Laws(g) && Rep1(t, s) && Digit(d) && table.Length == 8 && OddTable(g, table, 8, a)
    ensures Rep1(r, Plus(g, s, Mul(g, d as int, a)))
  {
    hide *;
    IsGroup(g);
    r := t;
    if d > 0 {
      Entry(d);
      TableAt(g, table, 8, (d / 2) as int, a);
      OddIs(table[d / 2], (d / 2) as int, g, a);
      var u := ToP3(t, g, s);
      r := Add(u, table[d / 2], g, s, Mul(g, d as int, a));
    } else if d < 0 {
      Entry(d);
      TableAt(g, table, 8, (-d / 2) as int, a);
      OddIs(table[-d / 2], (-d / 2) as int, g, a);
      var u := ToP3(t, g, s);
      r := Subtract(u, table[-d / 2], g, s, Mul(g, -(d as int), a));
      MulNeg(g, -(d as int), a);
    } else {
      MulOne(g, a);
      Unit(g, s);
    }
  }

  method AddDigitPrecomp(t: P1P1, d: int8, table: seq<Precomp>, ghost g: Group<CurvePoint>, ghost s: CurvePoint, ghost a: CurvePoint)
    returns (r: P1P1)
    requires Laws(g) && Rep1(t, s) && Digit(d) && |table| == 8 && OddPrecomp(g, table, a)
    ensures Rep1(r, Plus(g, s, Mul(g, d as int, a)))
  {
    hide *;
    IsGroup(g);
    r := t;
    if d > 0 {
      Entry(d);
      PrecompAt(g, table, (d / 2) as int, a);
      var u := ToP3(t, g, s);
      r := AddPrecomp(u, table[d / 2], g, s, Mul(g, d as int, a));
    } else if d < 0 {
      Entry(d);
      PrecompAt(g, table, (-d / 2) as int, a);
      var u := ToP3(t, g, s);
      r := SubtractPrecomp(u, table[-d / 2], g, s, Mul(g, -(d as int), a));
      MulNeg(g, -(d as int), a);
    } else {
      MulOne(g, a);
      Unit(g, s);
    }
  }

  //// The loop

  /** The number that the digits from i on stand for. */
  ghost function High(r: seq<int8>, i: nat): int
    requires i <= |r|
    decreases |r| - i
  {
    if i == |r| then 0 else r[i] as int + 2 * High(r, i + 1)
  }

  lemma {:induction false} HighIsDigits(r: seq<int8>, i: nat)
    requires i <= |r|
    ensures Digits(r, i) + Pow2(i) * High(r, i) == Digits(r, |r|)
    decreases |r| - i
  {
    if i < |r| {
      HighIsDigits(r, i + 1);
      PowNext(i);
      hide Pow2;
      HornerStep(Pow2(i), r[i] as int, High(r, i + 1));
    }
  }

  lemma HornerStep(w: int, d: int, h: int)
    ensures w * (d + 2 * h) == d * w + 2 * w * h
  {
    Distribute(w, d, 2 * h);
    MulAssoc(2, w, h);
  }

  lemma {:induction false} HighZero(r: seq<int8>, i: nat)
    requires i <= |r| && forall k :: i <= k < |r| ==> r[k] == 0
    ensures High(r, i) == 0
    decreases |r| - i
  {
    if i < |r| { HighZero(r, i + 1); }
  }

  /** Double, then add the next digits. */
  method Step(r: P2, d: int8, e: int8, Ai: array<Cached>, Bi: seq<Precomp>,
                       ghost g: Group<CurvePoint>, ghost m: int, ghost a: CurvePoint, ghost n: int, ghost b: CurvePoint)
    returns (q: P2)
    requires Laws(g) && Rep2(r, Comb(g, m, a, n, b)) && Digit(d) && Digit(e)
    requires Ai.Length == 8 && OddTable(g, Ai, 8, a) && |Bi| == 8 && OddPrecomp(g, Bi, b)
    ensures Rep2(q, Comb(g, 2 * m + d as int, a, 2 * n + e as int, b))
  {
    hide *;
    IsGroup(g);
    var t := Double(r, g, Comb(g, m, a, n, b));
    CombAdd(g, m, m, a, n, n, b);
    t := AddDigit(t, d, Ai, g, Comb(g, 2 * m, a, 2 * n, b), a);
    CombLeft(g, 2 * m, d as int, a, 2 * n, b);
    t := AddDigitPrecomp(t, e, Bi, g, Comb(g, 2 * m + d as int, a, 2 * n, b), b);
    CombRight(g, 2 * m + d as int, a, 2 * n, e as int, b);
    q := ToP2(t, g, Comb(g, 2 * m + d as int, a, 2 * n + e as int, b));
  }

  lemma SlidesRecoded(r: seq<int8>, i: nat)
    requires |r| == 256 && Recoded(r, 256) && i < 256
    ensures Digit(r[i])
  {
  }

  /** The top of both recodings: every digit above it is zero. */
  method TopDigit(a: seq<int8>, b: seq<int8>) returns (n: nat)
    requires |a| == 256 && |b| == 256
    ensures n <= 256 && High(a, n) == 0 && High(b, n) == 0
  {
    n := 256;
    while n > 0 && a[n - 1] == 0 && b[n - 1] == 0
      invariant n <= 256 && forall k :: n <= k < 256 ==> a[k] == 0 && b[k] == 0
    {
      n := n - 1;
    }
    HighZero(a, n);
    HighZero(b, n);
  }

  /** ge_double_scalarmult_vartime: mA + nB, where m is a and n is b unless a
      carry was dropped while recoding a number of 256 bits. */
  method GeDoubleScalarMult(a: seq<byte>, A: P3, b: seq<byte>, Bi: seq<Precomp>,
                            ghost g: Group<CurvePoint>, ghost p: CurvePoint, ghost q: CurvePoint)
    returns (r: P2, ghost m: int, ghost n: int)
    requires |a| == 32 && |b| == 32
    requires Laws(g) && Rep3(A, p) && |Bi| == 8 && OddPrecomp(g, Bi, q)
    ensures Rep2(r, Comb(g, m, p, n, q))
    ensures m == LoadLE(a) || m == LoadLE(a) - Pow2(256)
    ensures n == LoadLE(b) || n == LoadLE(b) - Pow2(256)
    ensures LoadLE(a) < Pow2(255) ==> m == LoadLE(a)
    ensures LoadLE(b) < Pow2(255) ==> n == LoadLE(b)
  {
    hide *;
    IsGroup(g);
    var aslide, bslide := new int8[256], new int8[256];
    Slide(aslide, a);
    Slide(bslide, b);
    var d, e := aslide[..], bslide[..];
    var Ai := new Cached[8];
    OddMultiples(Ai, A, g, p);
    r := Neutral(g);
    var i: nat := TopDigit(d, e);
    CombZero(g, p, q);
    while i > 0
      invariant i <= 256 && OddTable(g, Ai, 8, p) && Rep2(r, Comb(g, High(d, i), p, High(e, i), q))
    {
      i := i - 1;
      SlidesRecoded(d, i);
      SlidesRecoded(e, i);
      HighStep(d, i);
      HighStep(e, i);
      r := Step(r, d[i], e[i], Ai, Bi, g, High(d, i + 1), p, High(e, i + 1), q);
    }
    m, n := High(d, 0), High(e, 0);
    HighAll(d);
    HighAll(e);
  }

  lemma HighStep(r: seq<int8>, i: nat)
    requires i < |r|
    ensures High(r, i) == 2 * High(r, i + 1) + r[i] as int
  {
  }

  lemma HighAll(r: seq<int8>)
    ensures High(r, 0) == Digits(r, |r|)
  {
    HighIsDigits(r, 0);
    assert Digits(r, 0) == 0 && Pow2(0) == 1;
  }

  lemma CombZero(g: Group<CurvePoint>, p: CurvePoint, q: CurvePoint)
    requires Laws(g)
    ensures Comb(g, 0, p, 0, q) == g.zero
  {
    IsGroup(g);
    hide Laws, Abelian, Plus, Neg;
    MulOne(g, p);
    MulOne(g, q);
    hide Mul;
    Unit(g, g.zero);
  }

  //// In any abelian group

  /** Double-and-add over two digit strings. */
  ghost function Horner<T>(g: Group<T>, d: seq<int8>, e: seq<int8>, i: nat, p: T, q: T): T
    requires i <= |d| == |e|
    decreases |d| - i
  {
    if i == |d| then g.zero
    else
      var s := Horner(g, d, e, i + 1, p, q);
      Plus(g, Plus(g, Plus(g, s, s), Mul(g, d[i] as int, p)), Mul(g, e[i] as int, q))
  }

  lemma HornerNext<T>(g: Group<T>, d: seq<int8>, e: seq<int8>, i: nat, p: T, q: T)
    requires i < |d| == |e|
    ensures var s := Horner(g, d, e, i + 1, p, q);
            Horner(g, d, e, i, p, q)
            == Plus(g, Plus(g, Plus(g, s, s), Mul(g, d[i] as int, p)), Mul(g, e[i] as int, q))
  {
    hide Plus, Mul;
  }

  lemma HornerEnd<T(!new)>(g: Group<T>, d: seq<int8>, e: seq<int8>, p: T, q: T)
    requires Abelian(g) && |d| == |e|
    ensures Horner(g, d, e, |d|, p, q) == Comb(g, High(d, |d|), p, High(e, |e|), q)
  {
    hide Abelian, Plus, Neg;
    MulOne(g, p);
    MulOne(g, q);
    hide Mul;
    Unit(g, g.zero);
  }

  lemma {:induction false} HornerIs<T(!new)>(g: Group<T>, d: seq<int8>, e: seq<int8>, i: nat, p: T, q: T)
    requires Abelian(g) && i <= |d| == |e|
    ensures Horner(g, d, e, i, p, q) == Comb(g, High(d, i), p, High(e, i), q)
    decreases |d| - i
  {
    hide *;
    if i == |d| {
      HornerEnd(g, d, e, p, q);
    } else {
      HornerIs(g, d, e, i + 1, p, q);
      HornerNext(g, d, e, i, p, q);
      HighStep(d, i);
      HighStep(e, i);
      var m, n := High(d, i + 1), High(e, i + 1);
      CombAdd(g, m, m, p, n, n, q);
      CombLeft(g, 2 * m, d[i] as int, p, 2 * n, q);
      CombRight(g, 2 * m + d[i] as int, p, 2 * n, e[i] as int, q);
    }
  }

  /** The loop of ge_double_scalarmult_vartime, in any abelian group. */
  lemma DoubleAndAdd<T(!new)>(g: Group<T>, d: seq<int8>, e: seq<int8>, p: T, q: T)
    requires Abelian(g) && |d| == |e|
    ensures Horner(g, d, e, 0, p, q) == Comb(g, Digits(d, |d|), p, Digits(e, |e|), q)
  {
    hide Abelian, Plus, Neg, Mul, Comb, Horner;
    HornerIs(g, d, e, 0, p, q);
    HighAll(d);
    HighAll(e);
  }
}
