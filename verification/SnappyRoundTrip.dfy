/** Compress over any source and sink, its size bound, and the round trip. */
module SnappyRoundTrip {
  import opened Basics
  import opened Bytes
  import opened SnappyFormat
  import opened SnappyVarint
  import opened SnappyEmitters
  import opened SnappyCompress
  import opened SnappyDecompress
  import opened SnappyUncompress
  import opened Arith
  import Seqs

  /** The next n bytes in one piece: the reader's own region if it is long enough, or
      else gathered in a scratch buffer.  `pending` bytes are still to be skipped. */
  method NextFragment(reader: Source, n: nat) returns (fragment: seq<byte>, pending: nat)
    requires 0 < n <= |reader.rest|
    modifies reader
    ensures fragment == old(reader.rest)[..n] && pending <= n
    ensures pending <= |reader.rest| && reader.rest[pending..] == old(reader.rest)[n..]
  {
    ghost var all := reader.rest;
    var region := reader.Peek();
    if |region| >= n {
      return region[..n], n;
    }
    var scratch := region;
    reader.Skip(|region|);
    while |scratch| < n
      invariant |scratch| <= n && scratch == all[..|scratch|] && reader.rest == all[|scratch|..]
    {
      region := reader.Peek();
      var k := if |region| < n - |scratch| then |region| else n - |scratch|;
      assert scratch + region[..k] == all[..|scratch| + k];
      assert all[|scratch|..][k..] == all[|scratch| + k..];
      scratch := scratch + region[..k];
      reader.Skip(k);
    }
    return scratch, 0;
  }

  /** Bytes of tags for d bytes of input: within a sixth, and one more at the end. */
  ghost predicate WithinSixth(tags: nat, d: nat, last: bool) {
    6 * (tags - d) <= d + if last then 6 else 0
  }

  /** The k-th turn of the loop over fragments ended with this output: after `head` come
      tags for the first d bytes of data. */
  ghost predicate Written(bytes: seq<byte>, head: seq<byte>, data: seq<byte>, d: nat, k: nat) {
    && d <= |data| && head <= bytes && DecodeTags(bytes[|head|..], []) == Some(data[..d])
    && WithinSixth(|bytes| - |head|, d, d == |data|)
    && (NoMatches(data) ==> |bytes| - |head| >= d + k)
  }

  /** Compresses one fragment through a scratch buffer and appends it to the sink. */
  method CompressBlock(reader: Source, sink: Sink, num: nat, ghost data: seq<byte>, ghost d: nat, ghost head: seq<byte>, ghost k: nat)
    requires d < |data| && d == BLOCK_SIZE * k && num == FragmentSize(|data| - d) && reader.rest == data[d..]
    requires Written(sink.bytes, head, data, d, k)
    modifies reader, sink
    ensures reader.rest == data[d + num..] && Written(sink.bytes, head, data, d + num, k + 1)
  {
    ghost var before := sink.bytes;
    var fragment, pending := NextFragment(reader, num);
    Seqs.DropDrop(data, d, num);
    assert fragment == data[d..d + num];
    var table: array<uint16>;
    ghost var bits;
    table, bits := GetHashTable(num);
    var dest := new byte[MaxCompressedLength(num)];
    var end := CompressFragment(fragment, dest, 0, table, bits, data[..d]);
    var piece := dest[..end];
    assert dest[0..end] == piece;
    hide DecodeTags, NoRepeats, NoMatches;
    FragmentAt(data, k, num);
    sink.Append(piece);
    reader.Skip(pending);
    BlockWritten(before, head, piece, data, d, num, k);
  }

  lemma BlockWritten(before: seq<byte>, head: seq<byte>, piece: seq<byte>, data: seq<byte>, d: nat, num: nat, k: nat)
    requires d < |data| && num == FragmentSize(|data| - d) && Written(before, head, data, d, k)
    requires DecodeTags(piece, data[..d]) == Some(data[..d] + data[d..d + num])
    requires |piece| <= num + num / 60 + 1 && (NoMatches(data) ==> |piece| > num)
    ensures Written(before + piece, head, data, d + num, k + 1)
  {
    hide DecodeTags, NoMatches;
    BlockAppended(before, head, piece, data, d, num);
  }

  function FragmentSize(left: nat): nat { if left < BLOCK_SIZE then left else BLOCK_SIZE }

  lemma BlockAppended(before: seq<byte>, head: seq<byte>, piece: seq<byte>, data: seq<byte>, d: nat, num: nat)
    requires d + num <= |data| && head <= before && DecodeTags(before[|head|..], []) == Some(data[..d])
    requires DecodeTags(piece, data[..d]) == Some(data[..d] + data[d..d + num])
    ensures head <= before + piece && DecodeTags((before + piece)[|head|..], []) == Some(data[..d + num])
  {
    hide DecodeTags;
    DecodeConcat(before[|head|..], piece, []);
    Seqs.DropPrefix(before, piece, |head|);
    assert data[..d] + data[d..d + num] == data[..d + num];
  }

  /** No fragment offers a match to the compressor. */
  ghost predicate NoMatches(data: seq<byte>) {
    forall k: nat :: BLOCK_SIZE * k < |data| ==> NoRepeats(Fragment(data, k))
  }

  ghost function Fragment(data: seq<byte>, k: nat): seq<byte>
    requires BLOCK_SIZE * k < |data|
  {
    data[BLOCK_SIZE * k..if |data| < BLOCK_SIZE * (k + 1) then |data| else BLOCK_SIZE * (k + 1)]
  }

  /** Compress.  The length is kept in 32 bits, so only shorter inputs can come back. */
  method Compress(reader: Source, sink: Sink) returns (written: nat)
    modifies reader, sink
    ensures old(sink.bytes) <= sink.bytes && written == |sink.bytes| - |old(sink.bytes)|
    ensures written <= 32 + |old(reader.rest)| + |old(reader.rest)| / 6
    ensures |old(reader.rest)| < TWO32 ==> Decompressed(sink.bytes[|old(sink.bytes)|..]) == Some(old(reader.rest))
    ensures |old(reader.rest)| < TWO32 && NoMatches(old(reader.rest)) ==>
      TagBytes(sink.bytes[|old(sink.bytes)|..]) >= |old(reader.rest)| + |old(reader.rest)| / BLOCK_SIZE
  {
    hide DecodeTags, NoMatches, VarintBytes, Decompressed, TagBytes;
    var before := |sink.bytes|;
    ghost var data, was := reader.rest, sink.bytes;
    var left: nat := |reader.rest|;
    WriteLength(sink, left);
    ghost var k := CompressBlocks(reader, sink, left);
    written := |sink.bytes| - before;
    assert data[..|data|] == data;
    if |data| < TWO32 {
      Seqs.DropDropAppend(was, VarintBytes(|data|), sink.bytes);
      WholeDecodes(data, sink.bytes[before..]);
    }
  }

  /** The length of the input, cut to 32 bits. */
  method WriteLength(sink: Sink, n: nat)
    modifies sink
    ensures |old(sink.bytes)| < |sink.bytes| <= |old(sink.bytes)| + 5 && old(sink.bytes) <= sink.bytes
    ensures n < TWO32 ==> sink.bytes == old(sink.bytes) + VarintBytes(n)
  {
    var ulength := new byte[5];
    var p := Encode32(ulength, 0, n % TWO32);
    assert ulength[0..p] == ulength[..p];
    sink.Append(ulength[..p]);
  }

  lemma FragmentAt(data: seq<byte>, k: nat, num: nat)
    requires BLOCK_SIZE * k < |data| && num == FragmentSize(|data| - BLOCK_SIZE * k)
    ensures NoMatches(data) ==> NoRepeats(data[BLOCK_SIZE * k..BLOCK_SIZE * k + num])
  {
    hide NoRepeats;
    assert Fragment(data, k) == data[BLOCK_SIZE * k..BLOCK_SIZE * k + num];
  }

  /** The loop over fragments, once the length is written. */
  method CompressBlocks(reader: Source, sink: Sink, n: nat) returns (ghost k: nat)
    requires n == |reader.rest|
    modifies reader, sink
    ensures Written(sink.bytes, old(sink.bytes), old(reader.rest), n, k) && k >= n / BLOCK_SIZE
  {
    ghost var data, head := reader.rest, sink.bytes;
    var left: nat := n;
    k := 0;
    NothingWritten(head, data);
    hide Written;
    while left > 0
      invariant left <= n && reader.rest == data[n - left..] && Written(sink.bytes, head, data, n - left, k)
      invariant n - left <= BLOCK_SIZE * k && (left > 0 ==> n - left == BLOCK_SIZE * k)
    {
      var num: nat := FragmentSize(left);
      CompressBlock(reader, sink, num, data, n - left, head, k);
      left := left - num;
      k := k + 1;
    }
  }

  lemma NothingWritten(head: seq<byte>, data: seq<byte>)
    ensures Written(head, head, data, 0, 0)
  {
    NoTags();
    assert head[|head|..] == [] && data[..0] == [];
  }

  lemma NoTags()
    ensures DecodeTags([], []) == Some([])
  {
  }

  lemma WholeDecodes(data: seq<byte>, s: seq<byte>)
    requires |data| < TWO32 && VarintBytes(|data|) <= s
    requires DecodeTags(s[|VarintBytes(|data|)|..], []) == Some(data)
    ensures Decompressed(s) == Some(data) && TagBytes(s) == |s| - |VarintBytes(|data|)|
  {
    hide DecodeTags;
    var h := VarintBytes(|data|);
    assert s == h + s[|h|..];
    Varint32RoundTrip(|data|, s[|h|..]);
  }

  /** A string shorter than 2^32 bytes survives compression and decompression, exactly
      when its tags are fewer than 2^32 bytes or are not handed over in one flat array;
      otherwise the decompression never returns. */
  method RoundTrip(data: seq<byte>, flat: bool, roomy: bool) returns (compressed: seq<byte>, ok: bool, endless: bool, back: seq<byte>)
    requires |data| < TWO32
    ensures ok <==> (flat ==> TagBytes(compressed) < TWO32)
    ensures ok != endless
    ensures ok ==> back == data
    ensures |compressed| <= 32 + |data| + |data| / 6 && Decompressed(compressed) == Some(data)
    ensures NoMatches(data) ==> TagBytes(compressed) >= |data| + |data| / BLOCK_SIZE
  {
    hide NoMatches, Varint32, Added;
    var reader := new Source(data, true);
    var sink := new Sink(false);
    var _ := Compress(reader, sink);
    compressed := sink.bytes;
    assert compressed[0..] == compressed;
    var again := new Source(compressed, flat);
    var uncompressed := new Sink(roomy);
    ok, endless := Uncompress(again, uncompressed);
    back := uncompressed.bytes;
  }

  /** Six sevenths of 2^32 bytes always come back. */
  method RoundTripBelow(data: seq<byte>, flat: bool, roomy: bool) returns (ok: bool, back: seq<byte>)
    requires 32 + |data| + |data| / 6 < TWO32
    ensures ok && back == data
  {
    var compressed, endless;
    compressed, ok, endless, back := RoundTrip(data, flat, roomy);
    TagBytesBelow(compressed);
  }

  lemma TagBytesBelow(s: seq<byte>)
    ensures TagBytes(s) <= |s|
  {
    VarintFromLength(s, 0, 0, 1);
  }
}
