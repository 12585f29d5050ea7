/**
 Eight-way BLAKE2sp of blake2/ref/blake2sp-ref.c: the message is dealt to eight
 leaves in stripes of 64 bytes, and the leaf digests are hashed by a root.
 */
module Blake2sp {
  import opened Bytes
  import opened Blake2s
  import Seqs

  //// Stripes

  /** The stripes of leaf i in the whole 512-byte blocks of m. */
  ghost function Full(m: seq<byte>, i: nat): seq<byte>
    requires i < 8
  {
    if |m| < 512 then [] else m[64 * i..64 * (i + 1)] + Full(m[512..], i)
  }

  /** What is left of m after its whole 512-byte blocks. */
  ghost function Tail(m: seq<byte>): (t: seq<byte>)
    ensures |t| == |m| % 512
  {
    m[|m| - |m| % 512..]
  }

  function Min(a: nat, b: nat): nat { if a < b then a else b }

  /** The stripe of leaf i in the last, partial block t. */
  function Part(t: seq<byte>, i: nat): seq<byte> { t[Min(64 * i, |t|)..Min(64 * (i + 1), |t|)] }

  /** All that leaf i absorbs of m: stripes i, i + 8, i + 16, ... */
  ghost function Stripes(m: seq<byte>, i: nat): seq<byte>
    requires i < 8
  {
    Full(m, i) + Part(Tail(m), i)
  }

  lemma TailDrop(m: seq<byte>)
    requires |m| >= 512
    ensures Tail(m[512..]) == Tail(m)
  {
  }

  lemma {:induction false} FullAppend(m: seq<byte>, d: seq<byte>, i: nat)
    requires i < 8
    ensures Full(m + d, i) == Full(m, i) + Full(Tail(m) + d, i) && Tail(m + d) == Tail(Tail(m) + d)
    decreases |m|
  {
    if |m| < 512 {
      assert Tail(m) == m;
    } else {
      FullAppend(m[512..], d, i);
      TailDrop(m);
      TailDrop(m + d);
      Seqs.DropPrefix(m, d, 512);
      assert (m + d)[64 * i..64 * (i + 1)] == m[64 * i..64 * (i + 1)];
      hide Full;
      FullNext(m, i);
      FullNext(m + d, i);
      Seqs.Assoc(m[64 * i..64 * (i + 1)], Full(m[512..], i), Full(Tail(m) + d, i));
    }
  }

  lemma FullNext(m: seq<byte>, i: nat)
    requires i < 8 && |m| >= 512
    ensures Full(m, i) == m[64 * i..64 * (i + 1)] + Full(m[512..], i)
  {
  }

  /** The stripes say which bytes leaf i sees: byte 64 q + r of its input is byte
      64 (8 q + i) + r of the message. */
  lemma {:induction false} FullAt(m: seq<byte>, i: nat, q: nat, r: nat)
    requires i < 8 && r < 64 && 512 * (q + 1) <= |m|
    ensures |Full(m, i)| == 64 * (|m| / 512) && 64 * q + r < |Full(m, i)|
    ensures Full(m, i)[64 * q + r] == m[64 * (8 * q + i) + r]
  {
    FullLength(m, i);
    if q > 0 {
      FullAt(m[512..], i, q - 1, r);
      assert m[512..][64 * (8 * (q - 1) + i) + r] == m[64 * (8 * q + i) + r];
    }
  }

  lemma {:induction false} FullLength(m: seq<byte>, i: nat)
    requires i < 8
    ensures |Full(m, i)| == 64 * (|m| / 512)
  {
    if |m| >= 512 { FullLength(m[512..], i); }
  }

  /** New data that completes a buffered block. */
  lemma AppendCompleting(m: seq<byte>, data: seq<byte>, fill: nat, i: nat)
    requires i < 8 && fill == 512 - |Tail(m)| && fill <= |data|
    ensures var block := Tail(m) + data[..fill];
            && |block| == 512
            && Full(m + data, i) == Full(m, i) + block[64 * i..64 * (i + 1)] + Full(data[fill..], i)
            && Tail(m + data) == Tail(data[fill..])
  {
    var t, rest := Tail(m), data[fill..];
    var block := t + data[..fill];
    FullAppend(m, data, i);
    assert t + data == block + rest;
    Seqs.DropLeft(block, rest);
    assert (t + data)[64 * i..64 * (i + 1)] == block[64 * i..64 * (i + 1)];
    FullNext(t + data, i);
    TailDrop(t + data);
    Seqs.Assoc(Full(m, i), block[64 * i..64 * (i + 1)], Full(rest, i));
  }

  lemma ShortTail(m: seq<byte>, i: nat)
    requires i < 8 && |m| < 512
    ensures Tail(m) == m && Full(m, i) == []
  {
  }

  /** New data that does not: the buffer is empty, or stays below a block. */
  lemma AppendShort(m: seq<byte>, data: seq<byte>, i: nat)
    requires i < 8 && (Tail(m) == [] || |Tail(m)| + |data| < 512)
    ensures Full(m + data, i) == Full(m, i) + Full(data, i)
    ensures Tail(m + data) == Tail(m) + Tail(data)
  {
    hide Full, Tail;
    var t := Tail(m);
    FullAppend(m, data, i);
    if t == [] {
      assert t + data == data;
      assert t + Tail(data) == Tail(data);
    } else {
      ShortTail(t + data, i);
      ShortTail(data, i);
    }
  }
}
