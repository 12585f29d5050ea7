/** The eight leaf states of BLAKE2sp, updated side by side. */
module Blake2spLeaves {
  import opened Bytes
  import opened Blake2s
  import opened Blake2sp
  import Seqs

  /** Eight states that share nothing. */
  ghost predicate Separate(s: seq<State>) {
    |s| == 8 && forall i, j :: 0 <= i < j < 8 ==> s[i] != s[j] && s[i].buf != s[j].buf
  }

  ghost function Bufs(s: seq<State>): set<object> { set i | 0 <= i < |s| :: s[i].buf }

  lemma BufsAppend(s: seq<State>, leaf: State)
    ensures Bufs(s + [leaf]) == Bufs(s) + {leaf.buf}
  {
    var t := s + [leaf];
    assert t[|s|] == leaf;
    forall x | x in Bufs(s) ensures x in Bufs(t) {
      var i :| 0 <= i < |s| && s[i].buf == x;
      assert t[i].buf == x;
    }
  }

  /** Whole 512-byte blocks: each leaf takes its stripe of every one. */
  method FeedLeaf(leaf: State, data: seq<byte>, i: nat)
    requires leaf.Valid() && i < 8
    modifies leaf, leaf.buf
    ensures leaf.Valid() && leaf.input == old(leaf.input) + Full(data, i) && leaf.lastNode == old(leaf.lastNode)
  {
    var rest := data;
    assert Full(data, i) == [] + Full(rest, i);
    ghost var done: seq<byte> := [];
    while |rest| >= 512
      invariant leaf.Valid() && leaf.lastNode == old(leaf.lastNode)
      invariant leaf.input == old(leaf.input) + done && Full(data, i) == done + Full(rest, i)
    {
      var stripe := rest[64 * i..64 * (i + 1)];
      leaf.Update(stripe);
      Seqs.Assoc(old(leaf.input), done, stripe);
      Seqs.Assoc(done, stripe, Full(rest[512..], i));
      done := done + stripe;
      rest := rest[512..];
    }
    assert Full(data, i) == done;
  }

  /** The loop over the leaves in blake2sp_update. */
  method FeedAll(s: seq<State>, data: seq<byte>)
    requires Separate(s) && forall i :: 0 <= i < 8 ==> s[i].Valid()
    modifies s, Bufs(s)
    ensures forall i :: 0 <= i < 8 ==> s[i].Valid() && s[i].lastNode == old(s[i].lastNode)
    ensures forall i :: 0 <= i < 8 ==> s[i].input == old(s[i].input) + Full(data, i)
  {
    hide Full, State.Valid;
    for i := 0 to 8
      invariant forall j :: 0 <= j < 8 ==> s[j].Valid() && s[j].lastNode == old(s[j].lastNode)
      invariant forall j :: 0 <= j < i ==> s[j].input == old(s[j].input) + Full(data, j)
      invariant forall j :: i <= j < 8 ==> s[j].input == old(s[j].input)
    {
      FeedLeaf(s[i], data, i);
    }
  }

  /** One stripe of a 512-byte buffer to each leaf. */
  method FeedBlock(s: seq<State>, block: seq<byte>)
    requires Separate(s) && |block| == 512 && forall i :: 0 <= i < 8 ==> s[i].Valid()
    modifies s, Bufs(s)
    ensures forall i :: 0 <= i < 8 ==> s[i].Valid() && s[i].lastNode == old(s[i].lastNode)
    ensures forall i :: 0 <= i < 8 ==> s[i].input == old(s[i].input) + block[64 * i..64 * (i + 1)]
  {
    hide State.Valid;
    for i := 0 to 8
      invariant forall j :: 0 <= j < 8 ==> s[j].Valid() && s[j].lastNode == old(s[j].lastNode)
      invariant forall j :: 0 <= j < i ==> s[j].input == old(s[j].input) + block[64 * j..64 * (j + 1)]
      invariant forall j :: i <= j < 8 ==> s[j].input == old(s[j].input)
    {
      s[i].Update(block[64 * i..64 * (i + 1)]);
    }
  }

  /** The same bytes to each leaf: the key block. */
  method FeedKey(s: seq<State>, block: seq<byte>)
    requires Separate(s) && forall i :: 0 <= i < 8 ==> s[i].Valid()
    modifies s, Bufs(s)
    ensures forall i :: 0 <= i < 8 ==> s[i].Valid() && s[i].lastNode == old(s[i].lastNode)
    ensures forall i :: 0 <= i < 8 ==> s[i].input == old(s[i].input) + block
  {
    hide State.Valid;
    for i := 0 to 8
      invariant forall j :: 0 <= j < 8 ==> s[j].Valid() && s[j].lastNode == old(s[j].lastNode)
      invariant forall j :: 0 <= j < i ==> s[j].input == old(s[j].input) + block
      invariant forall j :: i <= j < 8 ==> s[j].input == old(s[j].input)
    {
      s[i].Update(block);
    }
  }

  //// Finishing

  method FinishLeaf(leaf: State, tail: seq<byte>, i: nat) returns (hash: seq<byte>)
    requires leaf.Valid() && Sized(leaf.prim) && leaf.outlen == 32 && i < 8
    modifies leaf, leaf.buf
    ensures hash == Digest(leaf.prim, leaf.h0, old(leaf.lastNode), old(leaf.input) + Part(tail, i))
  {
    hide State.Valid, Digest, Sized;
    if |tail| > 64 * i {
      var left := Min(|tail| - 64 * i, 64);
      leaf.Update(tail[64 * i..64 * i + left]);
    } else {
      assert old(leaf.input) == old(leaf.input) + Part(tail, i);
    }
    leaf.NotFinal();
    var out := leaf.Final(32);
    hash := out.value;
  }

  method FinishAll(s: seq<State>, tail: seq<byte>, ghost c: Primitive) returns (hashes: seq<seq<byte>>)
    requires Separate(s) && Sized(c)
    requires forall i :: 0 <= i < 8 ==> s[i].Valid() && s[i].prim == c && s[i].outlen == 32
    modifies s, Bufs(s)
    ensures |hashes| == 8
    ensures forall i :: 0 <= i < 8 ==>
              hashes[i] == Digest(c, s[i].h0, old(s[i].lastNode), old(s[i].input) + Part(tail, i))
  {
    hide State.Valid, Digest, Sized, Part;
    hashes := [];
    for i := 0 to 8
      invariant |hashes| == i
      invariant forall j :: i <= j < 8 ==>
                  s[j].Valid() && s[j].lastNode == old(s[j].lastNode) && s[j].input == old(s[j].input)
      invariant forall j :: 0 <= j < i ==>
                  hashes[j] == Digest(c, s[j].h0, old(s[j].lastNode), old(s[j].input) + Part(tail, j))
    {
      var hash := FinishLeaf(s[i], tail, i);
      hashes := hashes + [hash];
    }
  }

  /** The loop of the one-shot blake2sp: each leaf is fed and finished in turn. */
  method HashAll(s: seq<State>, data: seq<byte>, tail: seq<byte>, ghost c: Primitive) returns (hashes: seq<seq<byte>>)
    requires Separate(s) && Sized(c)
    requires forall i :: 0 <= i < 8 ==> s[i].Valid() && s[i].prim == c && s[i].outlen == 32
    modifies s, Bufs(s)
    ensures |hashes| == 8
    ensures forall i :: 0 <= i < 8 ==>
              hashes[i] == Digest(c, s[i].h0, old(s[i].lastNode), old(s[i].input) + Full(data, i) + Part(tail, i))
  {
    hide State.Valid, Digest, Sized, Part, Full;
    hashes := [];
    for i := 0 to 8
      invariant |hashes| == i
      invariant forall j :: i <= j < 8 ==>
                  s[j].Valid() && s[j].lastNode == old(s[j].lastNode) && s[j].input == old(s[j].input)
      invariant forall j :: 0 <= j < i ==>
                  hashes[j] == Digest(c, s[j].h0, old(s[j].lastNode), old(s[j].input) + Full(data, j) + Part(tail, j))
    {
      FeedLeaf(s[i], data, i);
      var hash := FinishLeaf(s[i], tail, i);
      hashes := hashes + [hash];
    }
  }

  /** Feeds the leaf digests to the root. */
  method FeedRoot(root: State, hashes: seq<seq<byte>>)
    requires root.Valid() && |hashes| == 8
    modifies root, root.buf
    ensures root.Valid() && root.input == old(root.input) + Joined(hashes) && root.lastNode == old(root.lastNode)
  {
    hide State.Valid;
    assert root.input == root.input + Concat(hashes, 0);
    for i := 0 to 8
      invariant root.Valid() && root.input == old(root.input) + Concat(hashes, i)
      invariant root.lastNode == old(root.lastNode)
    {
      root.Update(hashes[i]);
      Seqs.Assoc(old(root.input), Concat(hashes, i), hashes[i]);
    }
  }

  ghost function Joined(s: seq<seq<byte>>): seq<byte> { Concat(s, |s|) }

  ghost function Concat(s: seq<seq<byte>>, n: nat): seq<byte>
    requires n <= |s|
  {
    if n == 0 then [] else Concat(s, n - 1) + s[n - 1]
  }
}
