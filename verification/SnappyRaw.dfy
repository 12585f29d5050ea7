/** RawCompress: the compressor writes straight into the caller's buffer, which needs no
    more than MaxCompressedLength bytes although fragments are over-written past their end. */
module SnappyRaw {
  import opened Basics
  import opened Bytes
  import opened SnappyFormat
  import opened SnappyVarint
  import opened SnappyEmitters
  import opened SnappyCompress
  import opened SnappyDecompress
  import opened SnappyRoundTrip
  import Seqs

  /** What the buffer must hold for the next fragment. */
  lemma RoomForFragment(bytes: seq<byte>, head: seq<byte>, data: seq<byte>, d: nat, num: nat, k: nat)
    requires Written(bytes, head, data, d, k) && |head| <= 5 && d + num <= |data| && num > 0
    ensures |bytes| + Reach(num) <= MaxCompressedLength(|data|)
  {
    hide DecodeTags, NoMatches;
  }

  /** Compresses one fragment in place, at pos. */
  method CompressInto(reader: Source, dest: array<byte>, pos: nat, num: nat,
                      ghost data: seq<byte>, ghost d: nat, ghost head: seq<byte>, ghost k: nat)
    returns (end: nat)
    requires d < |data| && d == BLOCK_SIZE * k && num == FragmentSize(|data| - d) && reader.rest == data[d..]
    requires |head| <= 5 && pos <= MaxCompressedLength(|data|) <= dest.Length && Written(dest[..pos], head, data, d, k)
    modifies reader, dest
    ensures reader.rest == data[d + num..] && pos <= end <= MaxCompressedLength(|data|)
    ensures Written(dest[..end], head, data, d + num, k + 1)
    ensures OnlyChanged(dest, pos, MaxCompressedLength(|data|))
  {
    hide DecodeTags, NoRepeats, NoMatches, Written;
    ghost var before := dest[..pos];
    RoomForFragment(before, head, data, d, num, k);
    var fragment, pending := NextFragment(reader, num);
    Seqs.DropDrop(data, d, num);
    assert fragment == data[d..d + num];
    var table: array<uint16>;
    ghost var bits;
    table, bits := GetHashTable(num);
    end := CompressFragment(fragment, dest, pos, table, bits, data[..d]);
    FragmentAt(data, k, num);
    reader.Skip(pending);
    assert dest[..pos] == before;
    assert dest[..end] == before + dest[pos..end];
    BlockWritten(before, head, dest[pos..end], data, d, num, k);
  }

  /** RawCompress */
  method RawCompress(data: seq<byte>, dest: array<byte>) returns (written: nat)
    requires 32 + |data| + |data| / 6 <= dest.Length
    modifies dest
    ensures written <= 32 + |data| + |data| / 6 && OnlyChanged(dest, 0, 32 + |data| + |data| / 6)
    ensures |data| < TWO32 ==> Decompressed(dest[..written]) == Some(data)
  {
    hide DecodeTags, NoMatches, VarintBytes, Decompressed, TagBytes, Written;
    var reader := new Source(data, true);
    var left: nat := |data|;
    var pos := Encode32(dest, 0, left % TWO32);
    ghost var head := dest[..pos];
    assert dest[0..pos] == head;
    NothingWritten(head, data);
    ghost var k: nat := 0;
    while left > 0
      invariant left <= |data| && reader.rest == data[|data| - left..]
      invariant pos <= MaxCompressedLength(|data|) && Written(dest[..pos], head, data, |data| - left, k)
      invariant left > 0 ==> |data| - left == BLOCK_SIZE * k
      invariant OnlyChanged(dest, 0, MaxCompressedLength(|data|))
    {
      var num: nat := FragmentSize(left);
      pos := CompressInto(reader, dest, pos, num, data, |data| - left, head, k);
      left := left - num;
      k := k + 1;
    }
    written := pos;
    if |data| < TWO32 { AllWritten(dest[..pos], head, data, k); }
  }

  lemma AllWritten(bytes: seq<byte>, head: seq<byte>, data: seq<byte>, k: nat)
    requires |data| < TWO32 && head == VarintBytes(|data|) && Written(bytes, head, data, |data|, k)
    ensures Decompressed(bytes) == Some(data)
  {
    hide DecodeTags, NoMatches;
    assert data[..|data|] == data;
    WholeDecodes(data, bytes);
  }
}
