/**
 What the counter, the padding, the key block and the tree of BLAKE2sp are for: as long as
 the compression function gives no two of its calls the same result, no two messages,
 keys or output lengths have the same digest.
 */
module Blake2Collisions {
  import opened Bytes
  import opened Blake2s
  import opened Blake2sp
  import opened Blake2spLeaves
  import opened Blake2spHash

  //// One sequential hash

  /** The arguments of a call of the compression function. */
  datatype Call = Call(h: seq<byte>, t: nat, last: bool, node: bool, block: seq<byte>)

  function Result(c: Primitive, x: Call): seq<byte> { c.compress(x.h, x.t, x.last, x.node, x.block) }

  /** A sequential hash of m from chaining value h0. */
  datatype Work = Work(h0: seq<byte>, node: bool, m: seq<byte>)

  ghost function BlockCall(c: Primitive, w: Work, i: nat): Call
    requires 64 * (i + 1) <= |w.m|
  {
    Call(Absorbed(c, w.h0, w.m, i), 64 * (i + 1) % TWO64, false, false, w.m[64 * i..64 * (i + 1)])
  }

  ghost function LastCall(c: Primitive, w: Work): Call {
    var k := Blocks(|w.m|);
    Call(Absorbed(c, w.h0, w.m, k), |w.m| % TWO64, true, w.node, w.m[64 * k..] + Zeros(64 * (k + 1) - |w.m|))
  }

  /** The hash makes the call x. */
  ghost predicate Makes(c: Primitive, w: Work, x: Call) {
    x == LastCall(c, w) || exists i: nat :: i < Blocks(|w.m|) && x == BlockCall(c, w, i)
  }

  /** No call of one hash has the result of another call of the other. */
  ghost predicate NoClash(c: Primitive, w: Work, v: Work) {
    forall x, y :: Makes(c, w, x) && Makes(c, v, y) && Result(c, x) == Result(c, y) ==> x == y
  }

  lemma SameBlock(c: Primitive, w: Work, v: Work, i: nat)
    requires NoClash(c, w, v) && i < Blocks(|w.m|) && i < Blocks(|v.m|)
    requires Absorbed(c, w.h0, w.m, i + 1) == Absorbed(c, v.h0, v.m, i + 1)
    ensures Absorbed(c, w.h0, w.m, i) == Absorbed(c, v.h0, v.m, i)
    ensures w.m[64 * i..64 * (i + 1)] == v.m[64 * i..64 * (i + 1)]
  {
    var x, y := BlockCall(c, w, i), BlockCall(c, v, i);
    assert Makes(c, w, x) && Makes(c, v, y);
    assert Result(c, x) == Absorbed(c, w.h0, w.m, i + 1) && Result(c, y) == Absorbed(c, v.h0, v.m, i + 1);
  }

  /** Equal chaining values after as many blocks come from equal blocks. */
  lemma {:induction false} SameAbsorbed(c: Primitive, w: Work, v: Work, k: nat)
    requires NoClash(c, w, v) && k <= Blocks(|w.m|) && k <= Blocks(|v.m|)
    requires Absorbed(c, w.h0, w.m, k) == Absorbed(c, v.h0, v.m, k)
    ensures w.h0 == v.h0 && w.m[..64 * k] == v.m[..64 * k]
  {
    if k > 0 {
      SameBlock(c, w, v, k - 1);
      SameAbsorbed(c, w, v, k - 1);
      assert w.m[..64 * k] == w.m[..64 * (k - 1)] + w.m[64 * (k - 1)..64 * k];
      assert v.m[..64 * k] == v.m[..64 * (k - 1)] + v.m[64 * (k - 1)..64 * k];
    }
  }

  /** Equal digests come from equal hashes: the last call carries the length and the flags. */
  lemma DigestTells(c: Primitive, w: Work, v: Work)
    requires NoClash(c, w, v) && |w.m| < TWO64 && |v.m| < TWO64
    requires Digest(c, w.h0, w.node, w.m) == Digest(c, v.h0, v.node, v.m)
    ensures w == v
  {
    hide Absorbed;
    var x, y := LastCall(c, w), LastCall(c, v);
    assert Makes(c, w, x) && Makes(c, v, y) && Result(c, x) == Result(c, y);
    assert |w.m| == |v.m| by { SmallMod(|w.m|); SmallMod(|v.m|); }
    SameAbsorbed(c, w, v, Blocks(|w.m|));
    SamePadded(w.m, v.m, Blocks(|w.m|));
  }

  lemma SamePadded(m: seq<byte>, n: seq<byte>, k: nat)
    requires 64 * k <= |m| == |n| <= 64 * (k + 1) && m[..64 * k] == n[..64 * k]
    requires m[64 * k..] + Zeros(64 * (k + 1) - |m|) == n[64 * k..] + Zeros(64 * (k + 1) - |n|)
    ensures m == n
  {
    Heads(m[64 * k..], Zeros(64 * (k + 1) - |m|), n[64 * k..], Zeros(64 * (k + 1) - |n|));
    assert m == m[..64 * k] + m[64 * k..] && n == n[..64 * k] + n[64 * k..];
  }

  lemma SmallMod(n: nat)
    requires n < TWO64
    ensures n % TWO64 == n
  {
  }

  //// The stripes

  lemma StripesNext(m: seq<byte>, i: nat)
    requires i < 8 && |m| >= 512
    ensures Stripes(m, i) == m[64 * i..64 * (i + 1)] + Stripes(m[512..], i)
  {
    TailDrop(m);
  }

  lemma LastStripe(m: seq<byte>, i: nat)
    requires i < 8 && |m| < 512
    ensures Stripes(m, i) == Part(m, i)
  {
    ShortTail(m, i);
  }

  /** Nothing of a message is lost or moved when it is dealt to the leaves. */
  lemma {:induction false} StripesTell(m: seq<byte>, n: seq<byte>)
    requires forall i :: 0 <= i < 8 ==> Stripes(m, i) == Stripes(n, i)
    ensures m == n
    decreases |m|
  {
    hide Stripes;
    if |m| < 512 && |n| < 512 {
      forall i | 0 <= i < 8 ensures Part(m, i) == Part(n, i) { LastStripe(m, i); LastStripe(n, i); }
      PartsTell(m, n);
    } else if |m| >= 512 && |n| >= 512 {
      forall i | 0 <= i < 8
        ensures m[64 * i..64 * (i + 1)] == n[64 * i..64 * (i + 1)] && Stripes(m[512..], i) == Stripes(n[512..], i)
      {
        StripesNext(m, i);
        StripesNext(n, i);
        Heads(m[64 * i..64 * (i + 1)], Stripes(m[512..], i), n[64 * i..64 * (i + 1)], Stripes(n[512..], i));
      }
      StripesTell(m[512..], n[512..]);
      FirstBlock(m, n);
      assert m == m[..512] + m[512..] && n == n[..512] + n[512..];
    } else if |m| < 512 {
      LongStripe(m, n);
    } else {
      LongStripe(n, m);
    }
  }

  lemma Heads(a: seq<byte>, b: seq<byte>, c: seq<byte>, d: seq<byte>)
    requires a + b == c + d && |a| == |c|
    ensures a == c && b == d
  {
    assert a == (a + b)[..|a|] && c == (c + d)[..|c|] && b == (a + b)[|a|..] && d == (c + d)[|c|..];
  }

  /** The last leaf of a shorter message has less than a stripe. */
  lemma LongStripe(m: seq<byte>, n: seq<byte>)
    requires |m| < 512 <= |n|
    ensures Stripes(m, 7) != Stripes(n, 7)
  {
    LastStripe(m, 7);
    StripesNext(n, 7);
    hide Stripes;
    assert |Part(m, 7)| < 64;
  }

  lemma FirstBlock(m: seq<byte>, n: seq<byte>)
    requires |m| >= 512 && |n| >= 512 && forall i :: 0 <= i < 8 ==> m[64 * i..64 * (i + 1)] == n[64 * i..64 * (i + 1)]
    ensures m[..512] == n[..512]
  {
    forall j | 0 <= j < 512 ensures m[j] == n[j] {
      var i, r := j / 64, j % 64;
      assert m[64 * i..64 * (i + 1)][r] == m[j] && n[64 * i..64 * (i + 1)][r] == n[j];
    }
  }

  lemma PartAt(m: seq<byte>, j: nat)
    requires |m| < 512 && j < 512
    ensures j < |m| <==> j % 64 < |Part(m, j / 64)|
    ensures j < |m| ==> Part(m, j / 64)[j % 64] == m[j]
  {
  }

  lemma PartsTell(m: seq<byte>, n: seq<byte>)
    requires |m| < 512 && |n| < 512 && forall i :: 0 <= i < 8 ==> Part(m, i) == Part(n, i)
    ensures m == n
  {
    hide Part;
    PartAt(m, |n|);
    PartAt(n, |n|);
    PartAt(m, |m|);
    PartAt(n, |m|);
    assert Part(m, |m| / 64) == Part(n, |m| / 64) && Part(m, |n| / 64) == Part(n, |n| / 64);
    assert |m| == |n|;
    forall j | 0 <= j < |m| ensures m[j] == n[j] {
      PartAt(m, j);
      PartAt(n, j);
      assert Part(m, j / 64) == Part(n, j / 64);
    }
  }

  //// The tree

  /** What is hashed: the digest length, the key and the message. */
  datatype Job = Job(outlen: nat, key: seq<byte>, m: seq<byte>)

  ghost predicate Allowed(j: Job) { |j.key| <= 32 && |j.m| + 64 < TWO64 }

  ghost function LeafWork(c: Primitive, j: Job, i: nat): Work
    requires |j.key| <= 32 && i < 8
  {
    Work(c.init(LeafParam(j.outlen, |j.key|, i)), i == 7, KeyBlock(j.key) + Stripes(j.m, i))
  }

  ghost function RootWork(c: Primitive, j: Job): Work
    requires |j.key| <= 32
  {
    Work(c.init(RootParam(j.outlen, |j.key|)), true, Joined(LeafDigests(c, j.outlen, j.key, j.m)))
  }

  /** Neither the compression function nor the initial values clash in two tree hashes. */
  ghost predicate NoTreeClash(c: Primitive, j: Job, k: Job)
    requires |j.key| <= 32 && |k.key| <= 32
  {
    && NoClash(c, RootWork(c, j), RootWork(c, k))
    && (forall i :: 0 <= i < 8 ==> NoClash(c, LeafWork(c, j, i), LeafWork(c, k, i)))
    && (c.init(RootParam(j.outlen, |j.key|)) == c.init(RootParam(k.outlen, |k.key|)) ==>
          RootParam(j.outlen, |j.key|) == RootParam(k.outlen, |k.key|))
  }

  /** Equal tree digests come from equal output lengths, keys and messages. */
  lemma TreeTells(c: Primitive, j: Job, k: Job)
    requires Sized(c) && Allowed(j) && Allowed(k) && NoTreeClash(c, j, k)
    requires SpDigest(c, j.outlen, j.key, j.m) == SpDigest(c, k.outlen, k.key, k.m)
    ensures j == k
  {
    hide Digest, NoClash, Sized, LeafDigest, Stripes, KeyBlock, LeafParam, RootParam, Concat;
    var a, b := LeafDigests(c, j.outlen, j.key, j.m), LeafDigests(c, k.outlen, k.key, k.m);
    forall i | 0 <= i < 8 ensures |a[i]| == 32 && |b[i]| == 32 { LeafSize(c, j, i); LeafSize(c, k, i); }
    JoinedLength(a, |a|);
    JoinedLength(b, |b|);
    DigestTells(c, RootWork(c, j), RootWork(c, k));
    NodesDiffer(j.outlen, |j.key|, 0, k.outlen, |k.key|, 0);
    forall i | 0 <= i < 8 ensures KeyBlock(j.key) + Stripes(j.m, i) == KeyBlock(k.key) + Stripes(k.m, i) {
      JoinedTells(a, b, |a|, i);
      LeafTells(c, j, k, i);
    }
    KeyTells(j, k);
  }

  lemma LeafSize(c: Primitive, j: Job, i: nat)
    requires Sized(c) && |j.key| <= 32 && i < 8
    ensures |LeafDigest(c, j.outlen, j.key, j.m, i)| == 32
  {
    hide Digest, Stripes;
    DigestSize(c, c.init(LeafParam(j.outlen, |j.key|, i)), i == 7, KeyBlock(j.key) + Stripes(j.m, i));
  }

  lemma {:induction false} JoinedLength(s: seq<seq<byte>>, n: nat)
    requires n <= |s| && forall i :: 0 <= i < n ==> |s[i]| == 32
    ensures |Concat(s, n)| == 32 * n
  {
    if n > 0 { JoinedLength(s, n - 1); }
  }

  lemma {:induction false} JoinedTells(s: seq<seq<byte>>, t: seq<seq<byte>>, n: nat, i: nat)
    requires i < n <= |s| && n <= |t| && Concat(s, n) == Concat(t, n)
    requires forall k :: 0 <= k < n ==> |s[k]| == 32 && |t[k]| == 32
    ensures s[i] == t[i]
  {
    JoinedLength(s, n - 1);
    JoinedLength(t, n - 1);
    Heads(Concat(s, n - 1), s[n - 1], Concat(t, n - 1), t[n - 1]);
    if i < n - 1 { JoinedTells(s, t, n - 1, i); }
  }

  lemma {:induction false} StripesShorter(m: seq<byte>, i: nat)
    requires i < 8
    ensures |Stripes(m, i)| <= |m|
    decreases |m|
  {
    hide Stripes;
    if |m| < 512 {
      LastStripe(m, i);
    } else {
      StripesNext(m, i);
      StripesShorter(m[512..], i);
    }
  }

  lemma LeafTells(c: Primitive, j: Job, k: Job, i: nat)
    requires Allowed(j) && Allowed(k) && i < 8 && NoClash(c, LeafWork(c, j, i), LeafWork(c, k, i))
    requires LeafDigest(c, j.outlen, j.key, j.m, i) == LeafDigest(c, k.outlen, k.key, k.m, i)
    ensures KeyBlock(j.key) + Stripes(j.m, i) == KeyBlock(k.key) + Stripes(k.m, i)
  {
    StripesShorter(j.m, i);
    StripesShorter(k.m, i);
    hide Digest, NoClash, Stripes;
    DigestTells(c, LeafWork(c, j, i), LeafWork(c, k, i));
  }

  /** With keys of the same length, the key block is told from the message. */
  lemma KeyTells(j: Job, k: Job)
    requires |j.key| == |k.key| <= 32 && j.outlen == k.outlen
    requires forall i :: 0 <= i < 8 ==> KeyBlock(j.key) + Stripes(j.m, i) == KeyBlock(k.key) + Stripes(k.m, i)
    ensures j == k
  {
    hide Stripes;
    var a, b := KeyBlock(j.key), KeyBlock(k.key);
    forall i | 0 <= i < 8 ensures Stripes(j.m, i) == Stripes(k.m, i) && a == b {
      Heads(a, Stripes(j.m, i), b, Stripes(k.m, i));
    }
    assert a == b by { Heads(a, Stripes(j.m, 0), b, Stripes(k.m, 0)); }
    if j.key != [] { assert j.key == a[..|j.key|] && k.key == b[..|k.key|]; }
    StripesTell(j.m, k.m);
  }

  /** Two calls of blake2sp with full-length output: the same result means the same key and
      message, or a clash among the calls of the compression function. */
  method HashTwice(c: Primitive, key: seq<byte>, m: seq<byte>, key': seq<byte>, m': seq<byte>)
    returns (out: seq<byte>, out': seq<byte>)
    requires Sized(c) && Allowed(Job(32, key, m)) && Allowed(Job(32, key', m'))
    ensures IsHash(out, c, 32, key, m) && IsHash(out', c, 32, key', m')
    ensures NoTreeClash(c, Job(32, key, m), Job(32, key', m')) ==> (out == out' <==> key == key' && m == m')
  {
    hide SpDigest, Sized, NoTreeClash;
    var a := Hash(c, 32, m, key);
    var b := Hash(c, 32, m', key');
    out, out' := a.value, b.value;
    assert out == SpDigest(c, 32, key, m) && out' == SpDigest(c, 32, key', m');
    if NoTreeClash(c, Job(32, key, m), Job(32, key', m')) && out == out' {
      TreeTells(c, Job(32, key, m), Job(32, key', m'));
    }
  }
}
