/** Abelian groups and integer multiples of their elements. */
module Groups {

  datatype Group<!T> = Group(zero: T, add: (T, T) -> T, neg: T -> T)

  ghost function Plus<T>(g: Group<T>, a: T, b: T): T { g.add(a, b) }

  ghost function Neg<T>(g: Group<T>, a: T): T { g.neg(a) }

  ghost predicate Commutes<T>(g: Group<T>, a: T, b: T) { Plus(g, a, b) == Plus(g, b, a) }

  ghost predicate Associates<T>(g: Group<T>, a: T, b: T, c: T) {
    Plus(g, Plus(g, a, b), c) == Plus(g, a, Plus(g, b, c))
  }

  ghost predicate Inverts<T>(g: Group<T>, a: T) { Plus(g, a, g.zero) == a && Plus(g, a, Neg(g, a)) == g.zero }

  ghost predicate Abelian<T(!new)>(g: Group<T>) {
    && (forall a, b :: Commutes(g, a, b))
    && (forall a, b, c :: Associates(g, a, b, c))
    && (forall a :: Inverts(g, a))
  }

  /** n times p. */
  ghost function Mul<T>(g: Group<T>, n: int, p: T): T
    decreases if n < 0 then -n else n
  {
    if n == 0 then g.zero
    else if n > 0 then Plus(g, Mul(g, n - 1, p), p)
    else Plus(g, Mul(g, n + 1, p), Neg(g, p))
  }

  lemma Swap<T(!new)>(g: Group<T>, a: T, b: T)
    requires Abelian(g)
    ensures Plus(g, a, b) == Plus(g, b, a)
  {
    assert Commutes(g, a, b);
  }

  lemma Assoc<T(!new)>(g: Group<T>, a: T, b: T, c: T)
    requires Abelian(g)
    ensures Plus(g, Plus(g, a, b), c) == Plus(g, a, Plus(g, b, c))
  {
    assert Associates(g, a, b, c);
  }

  lemma Unit<T(!new)>(g: Group<T>, a: T)
    requires Abelian(g)
    ensures Plus(g, a, g.zero) == a && Plus(g, g.zero, a) == a
  {
    assert Inverts(g, a);
    Swap(g, a, g.zero);
  }

  lemma Inverse<T(!new)>(g: Group<T>, a: T)
    requires Abelian(g)
    ensures Plus(g, a, Neg(g, a)) == g.zero && Plus(g, Neg(g, a), a) == g.zero
  {
    assert Inverts(g, a);
    Swap(g, a, Neg(g, a));
  }

  lemma MulNext<T(!new)>(g: Group<T>, n: int, p: T)
    requires Abelian(g)
    ensures Mul(g, n + 1, p) == Plus(g, Mul(g, n, p), p)
  {
    hide Abelian, Plus, Neg;
    if n < 0 {
      var m := Mul(g, n + 1, p);
      assert Mul(g, n, p) == Plus(g, m, Neg(g, p));
      hide Mul;
      Assoc(g, m, Neg(g, p), p);
      Inverse(g, p);
      Unit(g, m);
    }
  }

  lemma {:induction false} MulAdd<T(!new)>(g: Group<T>, m: int, n: int, p: T)
    requires Abelian(g)
    ensures Mul(g, m + n, p) == Plus(g, Mul(g, m, p), Mul(g, n, p))
    decreases if n < 0 then -n else n
  {
    hide Abelian, Plus, Neg;
    if n == 0 {
      Unit(g, Mul(g, m, p));
    } else if n > 0 {
      MulAdd(g, m, n - 1, p);
      hide Mul;
      MulNext(g, m + n - 1, p);
      MulNext(g, n - 1, p);
      Assoc(g, Mul(g, m, p), Mul(g, n - 1, p), p);
    } else {
      MulAdd(g, m, n + 1, p);
      hide Mul;
      MulPrevious(g, m + n + 1, p);
      MulPrevious(g, n + 1, p);
      Assoc(g, Mul(g, m, p), Mul(g, n + 1, p), Neg(g, p));
    }
  }

  lemma MulPrevious<T(!new)>(g: Group<T>, n: int, p: T)
    requires Abelian(g)
    ensures Mul(g, n - 1, p) == Plus(g, Mul(g, n, p), Neg(g, p))
  {
    hide Abelian, Plus, Neg, Mul;
    MulNext(g, n - 1, p);
    var m := Mul(g, n - 1, p);
    Assoc(g, m, p, Neg(g, p));
    Inverse(g, p);
    Unit(g, m);
  }

  lemma MulOne<T(!new)>(g: Group<T>, p: T)
    requires Abelian(g)
    ensures Mul(g, 0, p) == g.zero && Mul(g, 1, p) == p && Mul(g, -1, p) == Neg(g, p)
  {
    hide Abelian, Plus, Neg;
    Unit(g, p);
    Unit(g, Neg(g, p));
    assert Mul(g, 0, p) == g.zero;
  }

  lemma MulNeg<T(!new)>(g: Group<T>, n: int, p: T)
    requires Abelian(g)
    ensures Mul(g, -n, p) == Neg(g, Mul(g, n, p))
  {
    hide Abelian, Plus, Neg;
    var a, b := Mul(g, n, p), Mul(g, -n, p);
    MulAdd(g, -n, n, p);
    assert Mul(g, 0, p) == g.zero;
    hide Mul;
    Assoc(g, b, a, Neg(g, a));
    Inverse(g, a);
    Unit(g, b);
    Unit(g, Neg(g, a));
  }

  lemma {:induction false} MulMul<T(!new)>(g: Group<T>, m: nat, n: int, p: T)
    requires Abelian(g)
    ensures Mul(g, m * n, p) == Mul(g, m, Mul(g, n, p))
  {
    hide Abelian, Plus, Neg;
    if m == 0 {
      assert m * n == 0;
    } else {
      hide Mul;
      MulMul(g, m - 1, n, p);
      assert m * n == (m - 1) * n + n;
      MulAdd(g, (m - 1) * n, n, p);
      MulNext(g, m - 1, Mul(g, n, p));
    }
  }

  /** A multiple of an element of order l depends on the factor mod l only. */
  lemma MulMod<T(!new)>(g: Group<T>, n: int, l: int, p: T)
    requires Abelian(g) && 0 < l && Mul(g, l, p) == g.zero
    ensures Mul(g, n % l, p) == Mul(g, n, p)
  {
    hide Abelian, Plus, Neg, Mul;
    var q, r := n / l, n % l;
    assert n == q * l + r;
    MulOrder(g, q, l, p);
    MulAdd(g, q * l, r, p);
    Unit(g, Mul(g, r, p));
  }

  lemma {:induction false} MulOrder<T(!new)>(g: Group<T>, q: int, l: int, p: T)
    requires Abelian(g) && Mul(g, l, p) == g.zero
    ensures Mul(g, q * l, p) == g.zero
    decreases if q < 0 then -q else q
  {
    hide Abelian, Plus, Neg, Mul;
    if q == 0 {
      MulOne(g, p);
    } else if q > 0 {
      MulOrder(g, q - 1, l, p);
      assert q * l == (q - 1) * l + l;
      MulAdd(g, (q - 1) * l, l, p);
      Unit(g, g.zero);
    } else {
      MulOrder(g, q + 1, l, p);
      assert (q + 1) * l == q * l + l;
      MulAdd(g, q * l, l, p);
      Unit(g, Mul(g, q * l, p));
    }
  }

  /** Four terms regrouped. */
  lemma Interchange<T(!new)>(g: Group<T>, a: T, b: T, c: T, d: T)
    requires Abelian(g)
    ensures Plus(g, Plus(g, a, b), Plus(g, c, d)) == Plus(g, Plus(g, a, c), Plus(g, b, d))
  {
    hide Abelian, Plus, Neg;
    Assoc(g, a, b, Plus(g, c, d));
    Assoc(g, b, c, d);
    Swap(g, b, c);
    Assoc(g, c, b, d);
    Assoc(g, a, c, Plus(g, b, d));
  }

  /** m p + n q */
  ghost function Comb<T>(g: Group<T>, m: int, p: T, n: int, q: T): T { Plus(g, Mul(g, m, p), Mul(g, n, q)) }

  lemma CombAdd<T(!new)>(g: Group<T>, m: int, m': int, p: T, n: int, n': int, q: T)
    requires Abelian(g)
    ensures Comb(g, m + m', p, n + n', q) == Plus(g, Comb(g, m, p, n, q), Comb(g, m', p, n', q))
  {
    hide Abelian, Plus, Neg, Mul;
    MulAdd(g, m, m', p);
    MulAdd(g, n, n', q);
    Interchange(g, Mul(g, m, p), Mul(g, m', p), Mul(g, n, q), Mul(g, n', q));
  }

  lemma CombLeft<T(!new)>(g: Group<T>, m: int, m': int, p: T, n: int, q: T)
    requires Abelian(g)
    ensures Plus(g, Comb(g, m, p, n, q), Mul(g, m', p)) == Comb(g, m + m', p, n, q)
  {
    hide Abelian, Plus, Neg, Mul;
    MulAdd(g, m, m', p);
    Assoc(g, Mul(g, m, p), Mul(g, n, q), Mul(g, m', p));
    Swap(g, Mul(g, n, q), Mul(g, m', p));
    Assoc(g, Mul(g, m, p), Mul(g, m', p), Mul(g, n, q));
  }

  lemma CombRight<T(!new)>(g: Group<T>, m: int, p: T, n: int, n': int, q: T)
    requires Abelian(g)
    ensures Plus(g, Comb(g, m, p, n, q), Mul(g, n', q)) == Comb(g, m, p, n + n', q)
  {
    hide Abelian, Plus, Neg, Mul;
    MulAdd(g, n, n', q);
    Assoc(g, Mul(g, m, p), Mul(g, n, q), Mul(g, n', q));
  }

  /** s p - k (a p) = r p when s = (k a + r) mod l and l p = 0. */
  lemma Cancellation<T(!new)>(g: Group<T>, p: T, l: int, a: int, k: nat, r: int, s: int)
    requires Abelian(g) && 0 < l && Mul(g, l, p) == g.zero && s == (k * a + r) % l
    ensures Comb(g, k, Neg(g, Mul(g, a, p)), s, p) == Mul(g, r, p)
  {
    hide *;
    var m, t := k * a, k * -a;
    Opposite(k, a, r);
    MulMod(g, m + r, l, p);
    MulNeg(g, a, p);
    MulMul(g, k, -a, p);
    MulAdd(g, t, m + r, p);
    CombIs(g, k, Neg(g, Mul(g, a, p)), s, p);
  }

  lemma CombIs<T(!new)>(g: Group<T>, m: int, p: T, n: int, q: T)
    ensures Comb(g, m, p, n, q) == Plus(g, Mul(g, m, p), Mul(g, n, q))
  {
  }

  lemma Opposite(k: int, a: int, r: int)
    ensures k * -a + (k * a + r) == r
  {
    assert k * -a == -(k * a);
  }
}
