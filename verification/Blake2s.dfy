/**
 Sequential BLAKE2s of blake2/ref/blake2s-ref.c, section 3.3 of RFC 7693: lazy
 buffering, so that the last block is always held back, and the byte counter.
 The compression function and the parameter block are opaque functions.
 */
module Blake2s {
  import opened Basics
  import opened Bytes
  import Seqs

  const TWO64: nat := 0x1_0000_0000_0000_0000

  /** The fields of the parameter block that vary. */
  datatype Param = Param(digestLength: nat, keyLength: nat, fanout: nat, depth: nat,
                         nodeOffset: nat, nodeDepth: nat, innerLength: nat)

  /** Initial chaining values, and compression of a block given the chaining
      value, the counter and the two finalization flags. */
  datatype Primitive = Primitive(init: Param -> seq<byte>,
                                 compress: (seq<byte>, nat, bool, bool, seq<byte>) -> seq<byte>)

  ghost predicate Sized(c: Primitive) {
    && (forall p :: |c.init(p)| == 32)
    && (forall h, t, last, node, b :: |c.compress(h, t, last, node, b)| == 32)
  }

  lemma CompressedSize(c: Primitive, h: seq<byte>, t: nat, last: bool, node: bool, b: seq<byte>)
    requires Sized(c)
    ensures |c.compress(h, t, last, node, b)| == 32
  {
  }

  //// What a digest is

  /** How many blocks of n bytes of input are compressed before the last one. */
  function Blocks(n: nat): nat { if n == 0 then 0 else (n - 1) / 64 }

  /** The chaining value after the first k blocks of m. */
  ghost function Absorbed(c: Primitive, h0: seq<byte>, m: seq<byte>, k: nat): seq<byte>
    requires 64 * k <= |m|
  {
    if k == 0 then h0
    else c.compress(Absorbed(c, h0, m, k - 1), 64 * k % TWO64, false, false, m[64 * (k - 1)..64 * k])
  }

  function Zeros(n: nat): (s: seq<byte>)
    ensures |s| == n && forall i :: 0 <= i < n ==> s[i] == 0
  {
    seq(n, i => 0)
  }

  /** The full 32-byte digest of m from chaining value h0. */
  ghost function Digest(c: Primitive, h0: seq<byte>, node: bool, m: seq<byte>): seq<byte> {
    var k := Blocks(|m|);
    c.compress(Absorbed(c, h0, m, k), |m| % TWO64, true, node, m[64 * k..] + Zeros(64 * (k + 1) - |m|))
  }

  lemma DigestSize(c: Primitive, h0: seq<byte>, node: bool, m: seq<byte>)
    requires Sized(c)
    ensures |Digest(c, h0, node, m)| == 32
  {
  }

  lemma {:induction false} AbsorbedPrefix(c: Primitive, h0: seq<byte>, m: seq<byte>, n: seq<byte>, k: nat)
    requires 64 * k <= |m|
    ensures Absorbed(c, h0, m + n, k) == Absorbed(c, h0, m, k)
  {
    if k > 0 {
      AbsorbedPrefix(c, h0, m, n, k - 1);
      assert (m + n)[64 * (k - 1)..64 * k] == m[64 * (k - 1)..64 * k];
    }
  }

  method CopyInto(dst: array<byte>, at: nat, src: seq<byte>)
    requires at + |src| <= dst.Length
    modifies dst
    ensures dst[..at] == old(dst[..at]) && dst[at..at + |src|] == src
    ensures dst[at + |src|..] == old(dst[at + |src|..])
  {
    for i := 0 to |src|
      invariant dst[..at] == old(dst[..at]) && dst[at..at + i] == src[..i]
      invariant dst[at + |src|..] == old(dst[at + |src|..])
    {
      dst[at + i] := src[i];
      assert dst[at..at + i + 1] == dst[at..at + i] + [src[i]];
    }
  }

  /** A 64-bit counter held in two 32-bit words. */
  lemma CounterStep(t0: nat, t1: nat, inc: nat)
    requires t0 < TWO32 && t1 < TWO32 && inc < TWO32
    ensures var u0 := (t0 + inc) % TWO32;
            var u1 := (t1 + if u0 < inc then 1 else 0) % TWO32;
            u0 + TWO32 * u1 == (t0 + TWO32 * t1 + inc) % TWO64
  {
  }

  /** blake2s_state */
  class State {
    const prim: Primitive
    var h: seq<byte>
    var t0: nat
    var t1: nat
    var f0: bool
    const buf: array<byte>
    var buflen: nat
    const outlen: nat
    var lastNode: bool
    ghost const h0: seq<byte>
    ghost var input: seq<byte>

    ghost predicate Valid()
      reads this, buf
    {
      var k := Blocks(|input|);
      && buf.Length == 64 && !f0 && t0 < TWO32 && t1 < TWO32
      && |input| == 64 * k + buflen && buflen <= 64
      && buf[..buflen] == input[64 * k..]
      && t0 + TWO32 * t1 == 64 * k % TWO64
      && h == Absorbed(prim, h0, input, k)
    }

    /** blake2s_init_param */
    constructor (c: Primitive, p: Param, digest: nat)
      ensures Valid() && input == [] && fresh(buf) && outlen == digest && !lastNode
      ensures prim == c && h0 == c.init(p)
    {
      prim := c;
      h := c.init(p);
      t0, t1, f0 := 0, 0, false;
      buf := new byte[64](i => 0);
      buflen, outlen, lastNode := 0, digest, false;
      h0 := c.init(p);
      input := [];
    }

    lemma NotFinal()
      requires Valid()
      ensures !f0
    {
    }

    /** S->last_node = 1 */
    method MarkLastNode()
      requires Valid()
      modifies this`lastNode
      ensures Valid() && lastNode && input == old(input)
    {
      lastNode := true;
    }

    /** blake2s_increment_counter */
    method IncrementCounter(inc: nat)
      requires t0 < TWO32 && t1 < TWO32 && inc < TWO32
      modifies this`t0, this`t1
      ensures t0 < TWO32 && t1 < TWO32
      ensures t0 + TWO32 * t1 == (old(t0) + TWO32 * old(t1) + inc) % TWO64
    {
      CounterStep(t0, t1, inc);
      t0 := (t0 + inc) % TWO32;
      t1 := (t1 + if t0 < inc then 1 else 0) % TWO32;
    }
  
    /** The first k blocks of m are compressed. */
    ghost predicate Through(m: seq<byte>, k: nat)
      requires 64 * k <= |m|
      reads this
    {
      && !f0 && t0 < TWO32 && t1 < TWO32
      && t0 + TWO32 * t1 == 64 * k % TWO64
      && h == Absorbed(prim, h0, m, k)
    }

    /** Counts and compresses one block. */
    method CompressBlock(block: seq<byte>, ghost m: seq<byte>, ghost k: nat)
      requires 64 * (k + 1) <= |m| && Through(m, k) && block == m[64 * k..64 * (k + 1)]
      modifies this`t0, this`t1, this`h
      ensures Through(m, k + 1)
    {
      ghost var g := h;
      IncrementCounter(64);
      CounterNext(k);
      h := prim.compress(h, t0 + TWO32 * t1, false, false, block);
      assert Absorbed(prim, h0, m, k + 1) == prim.compress(g, 64 * (k + 1) % TWO64, false, false, block);
    }

    /** Whole blocks are compressed while more than one block is left. */
    method CompressBlocks(data: seq<byte>, ghost m: seq<byte>, ghost k: nat) returns (rest: seq<byte>)
      requires 64 * k <= |m| && Through(m, k) && data == m[64 * k..] && 0 < |data|
      modifies this`t0, this`t1, this`h
      ensures 0 < |rest| <= 64
      ensures var n := Blocks(|m|); 64 * n <= |m| && Through(m, n) && rest == m[64 * n..]
    {
      rest := data;
      ghost var n: nat := k;
      while |rest| > 64
        invariant 64 * n <= |m| && Through(m, n) && rest == m[64 * n..] && 0 < |rest|
      {
        assert rest[..64] == m[64 * n..64 * (n + 1)];
        CompressBlock(rest[..64], m, n);
        Seqs.DropDrop(m, 64 * n, 64);
        rest := rest[64..];
        n := n + 1;
      }
      BlocksUnique(|m|, n);
    }

    /** blake2s_update */
    method Update(data: seq<byte>)
      requires Valid()
      modifies this, buf
      ensures Valid() && input == old(input) + data && lastNode == old(lastNode)
    {
      if |data| == 0 {
        assert input == input + data;
        return;
      }
      var fill := 64 - buflen;
      ghost var m, k := input + data, Blocks(|input|);
      AbsorbedPrefix(prim, h0, input, data, k);
      if |data| > fill {
        Overflow(data, m, k);
      } else {
        Append(data, m, k);
      }
    }

    method Append(data: seq<byte>, ghost m: seq<byte>, ghost k: nat)
      requires Valid() && k == Blocks(|input|) && m == input + data && 0 < |data| <= 64 - buflen && Through(m, k)
      modifies this, buf
      ensures Valid() && input == m && lastNode == old(lastNode)
    {
      ghost var old_ := buf[..buflen];
      CopyInto(buf, buflen, data);
      buflen := buflen + |data|;
      assert buf[..buflen] == old_ + data;
      Seqs.DropPrefix(input, data, 64 * k);
      BlocksUnique(|m|, k);
      input := m;
    }

    method Overflow(data: seq<byte>, ghost m: seq<byte>, ghost k: nat)
      requires Valid() && k == Blocks(|input|) && m == input + data && |data| > 64 - buflen && Through(m, k)
      modifies this, buf
      ensures Valid() && input == m && lastNode == old(lastNode)
    {
      hide Absorbed;
      var left, fill := buflen, 64 - buflen;
      ghost var was := buf[..left];
      CopyInto(buf, left, data[..fill]);
      assert buf[..] == was + data[..fill];
      FilledBlock(input, data, k, fill);
      buflen := 0;
      CompressBlock(buf[..], m, k);
      var rest := CompressBlocks(data[fill..], m, k + 1);
      CopyInto(buf, 0, rest);
      buflen := |rest|;
      assert buf[..buflen] == rest;
      input := m;
    }

    /** blake2s_final: fails when the output is too short or when called again. */
    method Final(n: nat) returns (out: Option<seq<byte>>)
      requires Valid() || f0
      requires Sized(prim) && n <= 32
      modifies this, buf
      ensures f0 == (old(f0) || outlen <= n)
      ensures out.Some? <==> outlen <= n && !old(f0)
      ensures |Digest(prim, h0, old(lastNode), old(input))| == 32
      ensures out.Some? ==> out.value == Digest(prim, h0, old(lastNode), old(input))[..n]
      ensures !f0 ==> Valid() && input == old(input) && lastNode == old(lastNode)
    {
      DigestSize(prim, h0, lastNode, input);
      if n < outlen || f0 { return None; }
      hide Absorbed, Sized;
      ghost var k := Blocks(|input|);
      IncrementCounter(buflen);
      CounterLast(k, buflen);
      f0 := true;
      ghost var was := buf[..buflen];
      CopyInto(buf, buflen, Zeros(64 - buflen));
      assert buf[..] == was + Zeros(64 - buflen);
      CompressedSize(prim, h, t0 + TWO32 * t1, true, lastNode, buf[..]);
      h := prim.compress(h, t0 + TWO32 * t1, true, lastNode, buf[..]);
      out := Some(h[..n]);
    }
  }

  lemma CounterLast(k: nat, n: nat)
    ensures (64 * k % TWO64 + n) % TWO64 == (64 * k + n) % TWO64
  {
  }

  lemma CounterNext(k: nat)
    ensures (64 * k % TWO64 + 64) % TWO64 == 64 * (k + 1) % TWO64
  {
  }

  lemma BlocksUnique(n: nat, k: nat)
    requires 64 * k < n <= 64 * (k + 1)
    ensures Blocks(n) == k
  {
  }

  /** The block completed by the first `fill` bytes of new data, and what follows it. */
  lemma FilledBlock(input: seq<byte>, data: seq<byte>, k: nat, fill: nat)
    requires 64 * k <= |input| && |input| + fill == 64 * (k + 1) && fill < |data|
    ensures var m := input + data;
            input[64 * k..] + data[..fill] == m[64 * k..64 * (k + 1)] && data[fill..] == m[64 * (k + 1)..]
  {
  }
}
