/** blake2sp_init, blake2sp_update, blake2sp_final and the one-shot blake2sp. */
module Blake2spHash {
  import opened Basics
  import opened Bytes
  import opened Blake2s
  import opened Blake2sp
  import opened Blake2spLeaves
  import Seqs

  //// What a digest is

  function LeafParam(outlen: nat, keylen: nat, i: nat): Param { Param(outlen, keylen, 8, 2, i, 0, 32) }

  function RootParam(outlen: nat, keylen: nat): Param { Param(outlen, keylen, 8, 2, 0, 1, 32) }

  /** No two nodes of the tree have the same parameters, and neither do trees for other
      output or key lengths. */
  lemma NodesDiffer(outlen: nat, keylen: nat, i: nat, outlen': nat, keylen': nat, j: nat)
    ensures LeafParam(outlen, keylen, i) == LeafParam(outlen', keylen', j) <==> outlen == outlen' && keylen == keylen' && i == j
    ensures RootParam(outlen, keylen) == RootParam(outlen', keylen') <==> outlen == outlen' && keylen == keylen'
    ensures LeafParam(outlen, keylen, i) != RootParam(outlen', keylen')
  {
  }

  /** The key, padded to a block; nothing without a key. */
  function KeyBlock(key: seq<byte>): seq<byte>
    requires |key| <= 32
  {
    if key == [] then [] else key + Zeros(64 - |key|)
  }

  ghost function LeafDigest(c: Primitive, outlen: nat, key: seq<byte>, m: seq<byte>, i: nat): seq<byte>
    requires |key| <= 32 && i < 8
  {
    Digest(c, c.init(LeafParam(outlen, |key|, i)), i == 7, KeyBlock(key) + Stripes(m, i))
  }

  ghost function LeafDigests(c: Primitive, outlen: nat, key: seq<byte>, m: seq<byte>): seq<seq<byte>>
    requires |key| <= 32
  {
    seq(8, i requires 0 <= i < 8 => LeafDigest(c, outlen, key, m, i))
  }

  /** The BLAKE2sp digest of m, before truncation. */
  ghost function SpDigest(c: Primitive, outlen: nat, key: seq<byte>, m: seq<byte>): seq<byte>
    requires |key| <= 32
  {
    Digest(c, c.init(RootParam(outlen, |key|)), true, Joined(LeafDigests(c, outlen, key, m)))
  }

  /** out is that digest, truncated. */
  ghost predicate IsHash(out: seq<byte>, c: Primitive, outlen: nat, key: seq<byte>, m: seq<byte>)
    requires |key| <= 32
  {
    |SpDigest(c, outlen, key, m)| == 32 && outlen <= 32 && out == SpDigest(c, outlen, key, m)[..outlen]
  }

  //// The leaves

  /** Leaf i of a computation, having absorbed m. */
  ghost predicate IsLeaf(s: State, c: Primitive, outlen: nat, keylen: nat, i: nat, m: seq<byte>)
    reads s, s.buf
  {
    && s.Valid() && s.prim == c && s.h0 == c.init(LeafParam(outlen, keylen, i)) && s.outlen == 32
    && s.lastNode == (i == 7) && s.input == m
  }

  /** All leaves have absorbed the key block and the whole blocks of m. */
  ghost predicate AllLeaves(s: seq<State>, c: Primitive, outlen: nat, key: seq<byte>, m: seq<byte>)
    requires |s| == 8 && |key| <= 32
    reads s, Bufs(s)
  {
    forall i :: 0 <= i < 8 ==> IsLeaf(s[i], c, outlen, |key|, i, KeyBlock(key) + Full(m, i))
  }

  /** A completed buffer and the data that follows it. */
  method FeedCompleting(s: seq<State>, block: seq<byte>, rest: seq<byte>,
                        ghost c: Primitive, ghost outlen: nat, ghost key: seq<byte>,
                        ghost m: seq<byte>, ghost data: seq<byte>, ghost fill: nat)
    requires Separate(s) && |key| <= 32 && AllLeaves(s, c, outlen, key, m)
    requires fill == 512 - |Tail(m)| && fill <= |data| && block == Tail(m) + data[..fill] && rest == data[fill..]
    modifies s, Bufs(s)
    ensures AllLeaves(s, c, outlen, key, m + data)
  {
    hide State.Valid, Full, Tail, KeyBlock;
    FeedBlock(s, block);
    FeedAll(s, rest);
    forall i | 0 <= i < 8 ensures s[i].input == KeyBlock(key) + Full(m + data, i) {
      AppendCompleting(m, data, fill, i);
      Chain(KeyBlock(key), Full(m, i), block[64 * i..64 * (i + 1)], Full(rest, i));
    }
  }

  method FeedShort(s: seq<State>, data: seq<byte>, ghost c: Primitive, ghost outlen: nat, ghost key: seq<byte>,
                   ghost m: seq<byte>)
    requires Separate(s) && |key| <= 32 && AllLeaves(s, c, outlen, key, m)
    requires Tail(m) == [] || |Tail(m)| + |data| < 512
    modifies s, Bufs(s)
    ensures AllLeaves(s, c, outlen, key, m + data)
  {
    hide State.Valid, Full, Tail, KeyBlock;
    FeedAll(s, data);
    forall i | 0 <= i < 8 ensures s[i].input == KeyBlock(key) + Full(m + data, i) {
      AppendShort(m, data, i);
      Seqs.Assoc(KeyBlock(key), Full(m, i), Full(data, i));
    }
  }

  lemma Chain(a: seq<byte>, b: seq<byte>, c: seq<byte>, d: seq<byte>)
    ensures a + b + c + d == a + (b + c + d)
  {
  }

  lemma NoBlocks(s: seq<State>, c: Primitive, outlen: nat, key: seq<byte>)
    requires |s| == 8 && |key| <= 32
    requires forall i :: 0 <= i < 8 ==> IsLeaf(s[i], c, outlen, |key|, i, KeyBlock(key))
    ensures AllLeaves(s, c, outlen, key, [])
  {
    hide State.Valid, KeyBlock;
    forall i | 0 <= i < 8 ensures KeyBlock(key) == KeyBlock(key) + Full([], i) { }
  }

  /** Eight fresh leaves, with the key block absorbed. */
  method NewLeaves(c: Primitive, outlen: nat, key: seq<byte>) returns (s: seq<State>)
    requires |key| <= 32
    ensures |s| == 8 && Separate(s) && fresh(s) && fresh(Bufs(s))
    ensures forall i :: 0 <= i < 8 ==>
      s[i].h0 == c.init(Param(outlen, |key|, 8, 2, i, 0, 32)) && s[i].lastNode == (i == 7) && s[i].outlen == 32
    ensures forall i :: 0 <= i < 8 ==> s[i].input == if key == [] then [] else key + Zeros(64 - |key|)
    ensures forall i :: 0 <= i < 8 ==> IsLeaf(s[i], c, outlen, |key|, i, KeyBlock(key))
    ensures AllLeaves(s, c, outlen, key, [])
  {
    hide State.Valid;
    s := [];
    for i := 0 to 8
      invariant |s| == i && fresh(s) && fresh(Bufs(s))
      invariant forall j, k :: 0 <= j < k < i ==> s[j] != s[k] && s[j].buf != s[k].buf
      invariant forall j :: 0 <= j < i ==> IsLeaf(s[j], c, outlen, |key|, j, [])
    {
      var leaf := new State(c, LeafParam(outlen, |key|, i), 32);
      if i == 7 { leaf.MarkLastNode(); }
      BufsAppend(s, leaf);
      s := s + [leaf];
    }
    if key != [] {
      FeedKey(s, key + Zeros(64 - |key|));
    }
    hide AllLeaves;
    NoBlocks(s, c, outlen, key);
  }

  /** A fresh root. */
  method NewRoot(c: Primitive, outlen: nat, keylen: nat) returns (root: State)
    ensures fresh(root) && fresh(root.buf) && root.Valid() && root.prim == c && root.input == []
    ensures root.h0 == c.init(Param(outlen, keylen, 8, 2, 0, 1, 32)) && root.lastNode && root.outlen == outlen
  {
    hide State.Valid;
    root := new State(c, RootParam(outlen, keylen), outlen);
    root.MarkLastNode();
  }

  /** The digest of the root over the leaf digests. */
  method Combine(root: State, hashes: seq<seq<byte>>, n: nat,
                 ghost c: Primitive, ghost outlen: nat, ghost key: seq<byte>, ghost m: seq<byte>)
    returns (out: seq<byte>)
    requires Sized(c) && |key| <= 32 && n <= 32 && |hashes| == 8
    requires forall i :: 0 <= i < 8 ==> hashes[i] == LeafDigest(c, outlen, key, m, i)
    requires root.Valid() && root.prim == c && root.h0 == c.init(RootParam(outlen, |key|))
    requires root.lastNode && root.input == [] && root.outlen <= n
    modifies root, root.buf
    ensures |SpDigest(c, outlen, key, m)| == 32 && out == SpDigest(c, outlen, key, m)[..n]
  {
    hide State.Valid, Digest, Sized, LeafDigest;
    assert hashes == LeafDigests(c, outlen, key, m);
    FeedRoot(root, hashes);
    assert [] + Joined(hashes) == Joined(hashes);
    root.NotFinal();
    var r := root.Final(n);
    out := r.value;
  }

  /** A leaf that absorbed all stripes of m has the right digest. */
  lemma LeafDone(c: Primitive, outlen: nat, key: seq<byte>, m: seq<byte>, i: nat, tail: seq<byte>)
    requires |key| <= 32 && i < 8 && tail == Tail(m)
    ensures Digest(c, c.init(LeafParam(outlen, |key|, i)), i == 7, KeyBlock(key) + Full(m, i) + Part(tail, i))
            == LeafDigest(c, outlen, key, m, i)
  {
    hide Digest, Full, Tail, Part;
    Seqs.Assoc(KeyBlock(key), Full(m, i), Part(tail, i));
  }

  /** blake2sp, in one call: fails on a bad output or key length. */
  method Hash(c: Primitive, outlen: nat, data: seq<byte>, key: seq<byte>) returns (out: Option<seq<byte>>)
    requires Sized(c)
    ensures out.Some? <==> 0 < outlen <= 32 && |key| <= 32
    ensures out.Some? ==> IsHash(out.value, c, outlen, key, data)
  {
    if outlen == 0 || outlen > 32 { return None; }
    if |key| > 32 { return None; }
    hide State.Valid, SpDigest, Sized, Full, Tail, Digest, Part, LeafDigest, KeyBlock;
    var leaves := NewLeaves(c, outlen, key);
    var tail := data[|data| - |data| % 512..];
    TailIs(data);
    var hashes := HashAll(leaves, data, tail, c);
    forall i | 0 <= i < 8 ensures hashes[i] == LeafDigest(c, outlen, key, data, i) {
      LeafDone(c, outlen, key, data, i, tail);
    }
    var root := NewRoot(c, outlen, |key|);
    var d := Combine(root, hashes, outlen, c, outlen, key, data);
    out := Some(d);
  }

  lemma TailBelow(m: seq<byte>)
    ensures |Tail(m)| < 512
  {
  }

  lemma TailIs(m: seq<byte>)
    ensures Tail(m) == m[|m| - |m| % 512..]
  {
  }

  //// Streaming

  /** blake2sp_state */
  class Stream {
    const prim: Primitive
    const leaves: seq<State>
    const root: State
    const buf: array<byte>
    var buflen: nat
    const outlen: nat
    ghost const key: seq<byte>
    ghost var input: seq<byte>

    ghost predicate Shape() {
      && Separate(leaves) && root !in leaves && root.buf !in Bufs(leaves)
      && buf !in Bufs(leaves) && buf != root.buf && buf.Length == 512
      && 0 < outlen <= 32 && |key| <= 32
    }

    ghost predicate Valid()
      reads this, leaves, Bufs(leaves), root, root.buf, buf
    {
      Fed(input) && buflen == |Tail(input)| && buf[..buflen] == Tail(input)
    }

    /** The leaves have absorbed the whole blocks of m. */
    ghost predicate Fed(m: seq<byte>)
      reads leaves, Bufs(leaves), root, root.buf
    {
      && Shape() && AllLeaves(leaves, prim, outlen, key, m)
      && root.Valid() && root.prim == prim && root.h0 == prim.init(RootParam(outlen, |key|))
      && root.lastNode && root.input == [] && root.outlen == outlen
    }

    constructor (c: Primitive, n: nat, ghost k: seq<byte>, b: array<byte>, r: State, s: seq<State>)
      requires 0 < n <= 32 && |k| <= 32 && b.Length == 512
      requires Separate(s) && r !in s && r.buf !in Bufs(s) && b !in Bufs(s) && b != r.buf
      requires AllLeaves(s, c, n, k, [])
      requires r.Valid() && r.prim == c && r.h0 == c.init(RootParam(n, |k|)) && r.lastNode && r.input == [] && r.outlen == n
      ensures Valid() && input == [] && prim == c && outlen == n && key == k
      ensures leaves == s && root == r && buf == b
    {
      hide State.Valid, KeyBlock, AllLeaves, IsLeaf, Tail;
      TailIs([]);
      prim, outlen, key := c, n, k;
      leaves, root, buf := s, r, b;
      buflen := 0;
      input := [];
    }

    /** blake2sp_update */
    method Update(data: seq<byte>)
      requires Valid()
      modifies this, leaves, Bufs(leaves), buf
      ensures Valid() && input == old(input) + data
    {
      var left, fill := buflen, 512 - buflen;
      if left > 0 && |data| >= fill {
        Complete(data, fill);
      } else {
        Extend(data);
      }
    }

    /** Fills the buffer, hands it out, and goes on with the rest. */
    method Complete(data: seq<byte>, fill: nat)
      requires Valid() && fill == 512 - buflen && fill <= |data|
      modifies this, leaves, Bufs(leaves), buf
      ensures Valid() && input == old(input) + data
    {
      hide State.Valid, Full, Tail, KeyBlock, AllLeaves;
      ghost var m, was := input, buf[..buflen];
      CopyInto(buf, buflen, data[..fill]);
      assert buf[..] == was + data[..fill];
      var rest := data[fill..];
      FeedCompleting(leaves, buf[..], rest, prim, outlen, key, m, data, fill);
      var tail := rest[|rest| - |rest| % 512..];
      TailIs(rest);
      AppendCompleting(m, data, fill, 0);
      assert buf[..0] + tail == tail;
      Buffer(0, tail, m + data);
    }

    /** Keeps the bytes that do not fill a block. */
    method Buffer(at: nat, tail: seq<byte>, ghost m: seq<byte>)
      requires Fed(m) && at <= 512 && buf[..at] + tail == Tail(m)
      modifies this, buf
      ensures Valid() && input == m
    {
      hide State.Valid, Full, Tail, KeyBlock, IsLeaf;
      ghost var was := buf[..at];
      TailBelow(m);
      CopyInto(buf, at, tail);
      buflen := at + |tail|;
      assert buf[..buflen] == was + tail;
      input := m;
    }

    /** Hands out whole blocks of the data and buffers the rest. */
    method Extend(data: seq<byte>)
      requires Valid() && (buflen == 0 || buflen + |data| < 512)
      modifies this, leaves, Bufs(leaves), buf
      ensures Valid() && input == old(input) + data
    {
      hide State.Valid, Full, Tail, KeyBlock, AllLeaves;
      ghost var m := input;
      FeedShort(leaves, data, prim, outlen, key, m);
      var tail := data[|data| - |data| % 512..];
      TailIs(data);
      AppendShort(m, data, 0);
      Buffer(buflen, tail, m + data);
    }

    /** blake2sp_final: fails when the output is too short. */
    method Final(n: nat) returns (out: Option<seq<byte>>)
      requires Valid() && Sized(prim)
      modifies this, leaves, Bufs(leaves), root, root.buf
      ensures out.Some? <==> outlen <= n
      ensures |SpDigest(prim, outlen, key, old(input))| == 32
      ensures out.Some? ==> out.value == SpDigest(prim, outlen, key, old(input))[..outlen]
      ensures out.None? ==> Valid() && input == old(input)
    {
      SpDigestSize(prim, outlen, key, input);
      if n < outlen { return None; }
      hide State.Valid, SpDigest, Sized, Full, Tail, Digest, Part, LeafDigest, KeyBlock;
      ghost var m := input;
      var tail := buf[..buflen];
      var hashes := FinishAll(leaves, tail, prim);
      forall i | 0 <= i < 8 ensures hashes[i] == LeafDigest(prim, outlen, key, m, i) {
        LeafDone(prim, outlen, key, m, i, tail);
      }
      var d := Combine(root, hashes, outlen, prim, outlen, key, m);
      out := Some(d);
    }
  }

  lemma SpDigestSize(c: Primitive, outlen: nat, key: seq<byte>, m: seq<byte>)
    requires |key| <= 32 && Sized(c)
    ensures |SpDigest(c, outlen, key, m)| == 32
  {
    hide Digest, Sized;
    DigestSize(c, c.init(RootParam(outlen, |key|)), true, Joined(LeafDigests(c, outlen, key, m)));
  }

  method NewStream(c: Primitive, outlen: nat, key: seq<byte>) returns (t: Stream)
    requires 0 < outlen <= 32 && |key| <= 32
    ensures t.Valid() && t.input == [] && t.prim == c && t.outlen == outlen && t.key == key
    ensures t.root.h0 == c.init(Param(outlen, |key|, 8, 2, 0, 1, 32)) && |t.leaves| == 8
    ensures forall i :: 0 <= i < 8 ==> t.leaves[i].h0 == c.init(Param(outlen, |key|, 8, 2, i, 0, 32))
    ensures fresh(t) && fresh(t.leaves) && fresh(Bufs(t.leaves)) && fresh(t.root) && fresh(t.root.buf) && fresh(t.buf)
  {
    hide State.Valid, Stream.Valid, AllLeaves, IsLeaf, KeyBlock, Separate;
    var buf := new byte[512](i => 0);
    var root := NewRoot(c, outlen, |key|);
    var leaves := NewLeaves(c, outlen, key);
    t := new Stream(c, outlen, key, buf, root, leaves);
  }

  /** blake2sp_init; blake2sp_init_key with a key. */
  method Start(c: Primitive, outlen: nat, key: Option<seq<byte>>) returns (r: Option<Stream>)
    ensures r.Some? <==> 0 < outlen <= 32 && (key.Some? ==> 0 < |key.value| <= 32)
    ensures r.Some? ==> r.value.Valid() && r.value.input == [] && r.value.prim == c && r.value.outlen == outlen
    ensures r.Some? ==> r.value.key == (if key.Some? then key.value else [])
    ensures r.Some? ==> fresh(r.value) && fresh(r.value.leaves) && fresh(Bufs(r.value.leaves)) && fresh(r.value.buf)
    ensures r.Some? ==> fresh(r.value.root) && fresh(r.value.root.buf)
  {
    if outlen == 0 || outlen > 32 { return None; }
    if key.Some? && (|key.value| == 0 || |key.value| > 32) { return None; }
    var s := NewStream(c, outlen, if key.Some? then key.value else []);
    r := Some(s);
  }

  /** Streaming agrees with the one-shot hash, however the message is cut. */
  method StreamingIsOneShot(c: Primitive, outlen: nat, key: seq<byte>, pieces: seq<seq<byte>>)
    returns (streamed: seq<byte>, direct: seq<byte>)
    requires Sized(c) && 0 < outlen <= 32 && |key| <= 32
    ensures streamed == direct && IsHash(streamed, c, outlen, key, Joined(pieces))
  {
    hide SpDigest, Sized, Stream.Valid, State.Valid, Separate;
    SpDigestSize(c, outlen, key, Joined(pieces));
    var s := NewStream(c, outlen, key);
    var message := [];
    for i := 0 to |pieces|
      invariant s.Valid() && s.input == message == Concat(pieces, i)
      invariant fresh(s.leaves) && fresh(Bufs(s.leaves)) && fresh(s.buf) && fresh(s.root) && fresh(s.root.buf)
    {
      s.Update(pieces[i]);
      message := message + pieces[i];
    }
    var a := s.Final(outlen);
    var b := Hash(c, outlen, message, key);
    streamed, direct := a.value, b.value;
  }
}
