/**
 Key pairs, signatures and their verification: ed25519/src/keypair.c, sign.c and
 verify.c, sections 5.1.5 to 5.1.7 of RFC 8032.  SHA-512 is an arbitrary function
 `hash` to 64 bytes; the tables of multiples of the base point are arguments.
 */
module Ed25519Sign {
  import opened Arith
  import opened Bytes
  import opened Congruence
  import opened Powers
  import opened Groups
  import opened Ed25519Limbs
  import opened Ed25519MulAdd
  import opened Ed25519Field
  import opened Ed25519Curve
  import opened Ed25519Points
  import opened Ed25519Codec
  import opened Ed25519Decode
  import opened Ed25519Group
  import opened Ed25519ScalarMult
  import opened Ed25519Base

  ghost predicate Hash(hash: seq<byte> -> seq<byte>) { forall m :: |hash(m)| == 64 }

  /** The curve, a base point of order L, and correct tables of its multiples. */
  ghost predicate Setup(g: Group<CurvePoint>, p: CurvePoint, base: seq<seq<Precomp>>, odd: seq<Precomp>) {
    Laws(g) && Mul(g, L, p) == g.zero && BaseTable(g, base, p) && |odd| == 8 && OddPrecomp(g, odd, p)
  }

  /** The 32 bytes that stand for a point. */
  ghost function Encode(a: CurvePoint): nat { Encoding(a.x, a.y) }

  //// Points and bytes

  lemma InverseOf(z: int)
    requires Field() && NonZero(z)
    ensures Eq(z * Power(z, P - 2), 1)
  {
    hide Field;
    Fermat(z);
    assert Power(z, P - 1) == z * Power(z, P - 2);
  }

  method EncodePoint2(h: P2, ghost g: Group<CurvePoint>, ghost a: CurvePoint) returns (s: seq<byte>)
    requires Laws(g) && Rep2(h, a)
    ensures |s| == 32 && LoadLE(s) == Encode(a)
  {
    hide Laws, Abelian, Canonical, Is2, NonZero, Field, Eq, Power, LoadLE, Encoding, OnCurve;
    Basics(g, a);
    InverseOf(FeVal(h.Z));
    s := GeToBytes(h, a.x, a.y);
  }

  /** ge_p3_tobytes */
  method EncodePoint(h: P3, ghost g: Group<CurvePoint>, ghost a: CurvePoint) returns (s: seq<byte>)
    requires Laws(g) && Rep3(h, a)
    ensures |s| == 32 && LoadLE(s) == Encode(a)
  {
    var q := P2(h.X, h.Y, h.Z);
    assert Rep2(q, a) by { hide Eq, NonZero, FeVal, Laws; }
    hide *;
    s := EncodePoint2(q, g, a);
  }

  /** The decoded point is the negative, in any congruent coordinates. */
  lemma Recoordinate(vx: int, vy: int, vt: int, x: int, y: int, z: int)
    requires z == 1 && Eq(vx, x) && Eq(vy, y) && Eq(vt, vx * vy * z)
    ensures Eq(vx, x * z) && Eq(vy, y * z) && Eq(vt, x * y * z)
  {
    Congruence.Product(vx, x, vy, y, P);
    Chain(vt, vx * vy, x * y);
  }

  lemma ResidueEq(v: int)
    ensures 0 <= v % P < P && Eq(v, v % P) && Eq(v % P, v)
  {
    assert v == v / P * P + v % P;
    Differ(v, v % P, v / P, P);
    Symmetric(v, v % P, P);
  }

  /** The point that a decoded h with Z = 1 represents. */
  lemma DecodedPoint(h: P3, n: Point)
    requires Is3(h, FeVal(h.X), FeVal(h.Y)) && FeVal(h.Z) == 1 && OnCurve(FeVal(h.X), FeVal(h.Y))
    requires 0 <= n.x < P && 0 <= n.y < P && Eq(n.x, FeVal(h.X)) && Eq(n.y, FeVal(h.Y))
    ensures Canonical(n) && Rep3(h, n)
  {
    hide FeVal, Eq, OnCurve;
    SameCurve(FeVal(h.X), FeVal(h.Y), n.x, n.y);
    EqSwap(n.x, FeVal(h.X));
    EqSwap(n.y, FeVal(h.Y));
    Recoordinate(FeVal(h.X), FeVal(h.Y), FeVal(h.T), n.x, n.y, FeVal(h.Z));
    NonZeroTwo();
  }

  lemma EqSwap(x: int, y: int)
    requires Eq(x, y)
    ensures Eq(y, x)
  {
    Symmetric(x, y, P);
  }

  /** A point with the coordinates of the negative is the negative. */
  lemma NegativeIs(g: Group<CurvePoint>, a: CurvePoint, n: Point, x: int, y: int)
    requires Laws(g) && n == Point(x % P, y % P) && Eq(x, -a.x) && Eq(y, a.y)
    ensures n == Neg(g, a)
  {
    hide *;
    var m := Neg(g, a);
    Basics(g, a);
    CanonicalBounds(a);
    CanonicalBounds(m);
    EqResidue(x, -a.x);
    EqResidue(y, a.y);
    EqResidue(m.x, -a.x);
    SmallResidue(m.x);
    SmallResidue(a.y);
  }

  lemma EqResidue(x: int, y: int)
    requires Eq(x, y)
    ensures x % P == y % P
  {
    SameResidue(x, y, P);
  }

  lemma SmallResidue(x: int)
    requires 0 <= x < P
    ensures x % P == x
  {
    DivUnique(x, P, 0, x);
  }

  lemma CanonicalBounds(a: CurvePoint)
    ensures 0 <= a.x < P && 0 <= a.y < P
  {
  }

  //// Sizes of scalars

  lemma ReducedTop(t: seq<byte>)
    requires |t| == 32 && LoadLE(t) < L
    ensures t[31] < 32
  {
    hide LoadLE;
    SplitLast(t);
  }

  lemma SmallScalar(t: seq<byte>, k: nat)
    requires |t| == 32 && t[31] < 32 && k == 255
    ensures LoadLE(t) < Pow2(k)
  {
    hide LoadLE, Pow2;
    SplitLast(t);
    LoadBelow(t[..31]);
    TopWeight(t[..31]);
    Pow2Of256(32);
    PowNext(k);
  }

  //// Key pairs

  /** ed25519_create_keypair */
  method CreateKeypair(publicKey: array<byte>, privateKey: array<byte>, seed: seq<byte>,
                       hash: seq<byte> -> seq<byte>, base: seq<seq<Precomp>>,
                       ghost g: Group<CurvePoint>, ghost p: CurvePoint)
    requires publicKey.Length == 32 && privateKey.Length == 64 && publicKey != privateKey && |seed| == 32
    requires Hash(hash) && Laws(g) && BaseTable(g, base, p)
    modifies publicKey, privateKey
    ensures privateKey[0] == hash(seed)[0] - hash(seed)[0] % 8 && privateKey[31] == hash(seed)[31] % 64 + 64
    ensures forall k :: 0 < k < 64 && k != 31 ==> privateKey[k] == hash(seed)[k]
    ensures LoadLE(publicKey[..]) == Encode(Mul(g, LoadLE(privateKey[..32]), p))
  {
    hide Laws, BaseTable, LoadLE, Mul, Encode, Rep3, Abelian, Canonical;
    var d := hash(seed);
    Write(privateKey, 0, d);
    assert privateKey[..] == d;
    privateKey[0] := privateKey[0] - privateKey[0] % 8;
    privateKey[31] := privateKey[31] % 64;
    privateKey[31] := privateKey[31] + 64;
    var a := privateKey[..32];
    var A := GeScalarMultBase(a, base, g, p);
    var s := EncodePoint(A, g, Mul(g, LoadLE(a), p));
    Write(publicKey, 0, s);
    assert publicKey[..] == s;
  }

  //// Signing

  /** sc_reduce of a hash. */
  method ReducedHash(d: seq<byte>) returns (r: seq<byte>)
    requires |d| == 64
    ensures |r| == 32 && LoadLE(r) == LoadLE(d) % L && r[31] < 32
  {
    var b := new byte[64];
    Write(b, 0, d);
    assert b[..64] == d;
    hide LoadLE;
    ScReduce(b);
    r := b[..32];
    ModBelow(LoadLE(d));
    ReducedTop(r);
  }

  lemma ModBelow(n: nat)
    ensures 0 <= n % L < L
  {
  }

  /** ed25519_sign: R = rB, then S = (k a + r) mod L. */
  method Sign(signature: array<byte>, message: seq<byte>, publicKey: seq<byte>, privateKey: seq<byte>,
              hash: seq<byte> -> seq<byte>, base: seq<seq<Precomp>>,
              ghost g: Group<CurvePoint>, ghost p: CurvePoint)
    requires signature.Length == 64 && |publicKey| == 32 && |privateKey| == 64
    requires Hash(hash) && Laws(g) && BaseTable(g, base, p)
    modifies signature
    ensures var r := LoadLE(hash(privateKey[32..] + message)) % L;
            var k := LoadLE(hash(signature[..32] + publicKey + message)) % L;
            && LoadLE(signature[..32]) == Encode(Mul(g, r, p))
            && LoadLE(signature[32..]) == (k * LoadLE(privateKey[..32]) + r) % L
  {
    hide Laws, BaseTable, LoadLE, Mul, Encode, Rep3, Abelian, Canonical;
    var r := ReducedHash(hash(privateKey[32..] + message));
    var R := GeScalarMultBase(r, base, g, p);
    var e := EncodePoint(R, g, Mul(g, LoadLE(r), p));
    Write(signature, 0, e);
    assert signature[..32] == e;
    var hram := ReducedHash(hash(e + publicKey + message));
    ScMulAdd(signature, 32, hram, privateKey[..32], r);
    assert signature[32..64] == signature[32..];
  }

  //// Verification

  /** consttime_equal */
  method ConstTimeEqual(x: seq<byte>, y: seq<byte>) returns (same: bool)
    requires |x| == 32 && |y| == 32
    ensures same <==> x == y
  {
    var differ := false;
    for i := 0 to 32
      invariant !differ <==> x[..i] == y[..i]
    {
      differ := differ || x[i] != y[i];
      assert x[..i + 1] == x[..i] + [x[i]] && y[..i + 1] == y[..i] + [y[i]];
    }
    same := !differ;
    assert x[..32] == x && y[..32] == y;
  }

  /** S B + k A and its encoding. */
  method Combine(k: seq<byte>, A: P3, S: seq<byte>, odd: seq<Precomp>,
                 ghost g: Group<CurvePoint>, ghost n: CurvePoint, ghost p: CurvePoint)
    returns (checker: seq<byte>)
    requires |k| == 32 && |S| == 32 && k[31] < 32 && S[31] < 32
    requires Laws(g) && Rep3(A, n) && |odd| == 8 && OddPrecomp(g, odd, p)
    ensures |checker| == 32 && LoadLE(checker) == Encode(Comb(g, LoadLE(k), n, LoadLE(S), p))
  {
    hide *;
    SmallScalar(k, 255);
    SmallScalar(S, 255);
    var R, i, j := GeDoubleScalarMult(k, A, S, odd, g, n, p);
    checker := EncodePoint2(R, g, Comb(g, LoadLE(k), n, LoadLE(S), p));
  }

  /** The negative of n is encoded by the string that n was decoded from. */
  lemma EncodesNegative(g: Group<CurvePoint>, s: seq<byte>, n: CurvePoint)
    requires Laws(g) && |s| == 32 && CanonicalFor(s, n.x) && n.y == Bits(LoadLE(s), 0, 255) % P
    requires n.x != 0 ==> (n.x % 2 == 1 <==> s[31] < 128)
    ensures LoadLE(s) == Encode(Neg(g, n))
  {
    hide LoadLE, Bits, Laws, Eq, Neg, OnCurve, Abelian, Field;
    Basics(g, n);
    CanonicalBounds(n);
    SmallResidue(n.x);
    SmallResidue(n.y);
    DecodeThenEncode(s, n.x, n.y);
    EqResidue(Neg(g, n).x, -n.x);
  }

  /** ed25519_verify.  The signature is accepted exactly when S is below 2^253, the public
      key has a point, and R encodes S B + k n, where n is minus that point: a canonical key
      encodes -n, and a key that encodes a point a has n = -a. */
  method Verify(signature: seq<byte>, message: seq<byte>, publicKey: seq<byte>,
                hash: seq<byte> -> seq<byte>, odd: seq<Precomp>,
                ghost g: Group<CurvePoint>, ghost p: CurvePoint, ghost a: CurvePoint)
    returns (ok: bool, ghost n: CurvePoint)
    requires |signature| == 64 && |publicKey| == 32
    requires Hash(hash) && Laws(g) && |odd| == 8 && OddPrecomp(g, odd, p)
    ensures ok <==> signature[63] < 32 && HasPoint(publicKey) &&
                    LoadLE(signature[..32])
                    == Encode(Comb(g, LoadLE(hash(signature[..32] + publicKey + message)) % L, n, LoadLE(signature[32..]), p))
    ensures signature[63] < 32 && HasPoint(publicKey) ==> n.y == Bits(LoadLE(publicKey), 0, 255) % P
    ensures signature[63] < 32 && HasPoint(publicKey) && n.x != 0 ==> (n.x % 2 == 1 <==> publicKey[31] < 128)
    ensures signature[63] < 32 && HasPoint(publicKey) && CanonicalFor(publicKey, n.x) ==>
      LoadLE(publicKey) == Encode(Neg(g, n))
    ensures signature[63] < 32 && LoadLE(publicKey) == Encode(a) ==> HasPoint(publicKey) && n == Neg(g, a)
  {
    hide Laws, OddPrecomp, LoadLE, Mul, Plus, Neg, Comb, Is3, Rep2, Rep3, FeVal, Field, Eq, OnCurve, Bits, Pow2;
    hide Encoding, Abelian, Canonical, HasPoint, CanonicalFor;
    ok, n := false, a;
    if signature[63] >= 32 { return; }
    CanonicalBounds(a);
    Basics(g, a);
    var decodes, A := GeFromBytesNegate(publicKey, a.x, a.y);
    if !decodes { return; }
    ghost var q := Point(FeVal(A.X) % P, FeVal(A.Y) % P);
    ResidueEq(FeVal(A.X));
    ResidueEq(FeVal(A.Y));
    DecodedPoint(A, q);
    n := q;
    if CanonicalFor(publicKey, q.x) { EncodesNegative(g, publicKey, q); }
    if LoadLE(publicKey) == Encode(a) { NegativeIs(g, a, q, FeVal(A.X), FeVal(A.Y)); }
    var R, S := signature[..32], signature[32..];
    var k := ReducedHash(hash(R + publicKey + message));
    var checker := Combine(k, A, S, odd, g, n, p);
    ok := ConstTimeEqual(checker, R);
    if LoadLE(checker) == LoadLE(R) { LoadInjective(checker, R); }
  }

  //// Signatures verify

  /** What Sign makes of a key a, with nonce r and challenge k, is what Verify accepts for
      the key that encodes aB. */
  lemma SignedIsAccepted(g: Group<CurvePoint>, p: CurvePoint, a: nat, k: nat, r: nat, s: seq<byte>)
    requires Laws(g) && Mul(g, L, p) == g.zero && |s| == 64
    requires LoadLE(s[..32]) == Encode(Mul(g, r, p)) && LoadLE(s[32..]) == (k * a + r) % L
    ensures s[63] < 32 && LoadLE(s[..32]) == Encode(Comb(g, k, Neg(g, Mul(g, a, p)), LoadLE(s[32..]), p))
  {
    hide *;
    IsGroup(g);
    PositiveOrder();
    Cancellation(g, p, L, a, k, r, LoadLE(s[32..]));
    ModBelow(k * a + r);
    ReducedTop(s[32..]);
  }

  lemma PositiveOrder()
    ensures 0 < L
  {
  }

  /** Every signature made with a generated key pair is accepted. */
  method SignThenVerify(seed: seq<byte>, message: seq<byte>, hash: seq<byte> -> seq<byte>,
                        base: seq<seq<Precomp>>, odd: seq<Precomp>,
                        ghost g: Group<CurvePoint>, ghost p: CurvePoint)
    returns (ok: bool)
    requires |seed| == 32 && Hash(hash) && Setup(g, p, base, odd)
    ensures ok
  {
    hide *;
    SetupIs(g, p, base, odd);
    IsGroup(g);
    var publicKey, privateKey, signature := new byte[32], new byte[64], new byte[64];
    CreateKeypair(publicKey, privateKey, seed, hash, base, g, p);
    var public, private := publicKey[..], privateKey[..];
    assert private[..32] == privateKey[..32];
    Sign(signature, message, public, private, hash, base, g, p);
    var s := signature[..];
    assert s[..32] == signature[..32] && s[32..] == signature[32..];
    assert private[32..] == privateKey[32..];
    ghost var a, k, r := LoadLE(private[..32]), LoadLE(hash(s[..32] + public + message)) % L, LoadLE(hash(private[32..] + message)) % L;
    SignedIsAccepted(g, p, a, k, r, s);
    ghost var n;
    ok, n := Verify(s, message, public, hash, odd, g, p, Mul(g, a, p));
  }

  lemma SetupIs(g: Group<CurvePoint>, p: CurvePoint, base: seq<seq<Precomp>>, odd: seq<Precomp>)
    requires Setup(g, p, base, odd)
    ensures Laws(g) && Mul(g, L, p) == g.zero && BaseTable(g, base, p) && |odd| == 8 && OddPrecomp(g, odd, p)
    ensures 0 < L
  {
    hide Laws, Mul, BaseTable, OddPrecomp;
  }
}
