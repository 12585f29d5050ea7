/**
 The four output writers of the decompressor.  Each is proved to append exactly
 what the format asks for and to refuse exactly when the expected length would
 be passed or a copy would reach before the start of the output.
 */
module SnappyWriters {
  import opened Basics
  import opened Bytes
  import opened SnappyFormat
  import opened SnappyCopy
  import Seqs

  const TWO64: nat := 0x1_0000_0000_0000_0000

  /** `x - 1u` in 64-bit arithmetic: zero becomes the largest value. */
  function Pred64(x: nat): nat { (x + TWO64 - 1) % TWO64 }

  /** A source position at most `offset` bytes long copied in one piece. */
  lemma ExtendBySlice(out: seq<byte>, offset: nat, n: nat)
    requires 0 < offset <= |out| && n <= offset
    ensures Extend(out, offset, n) == out + out[|out| - offset..][..n]
  {
    var r := out + out[|out| - offset..][..n];
    assert forall i :: |out| <= i < |r| ==> RepeatAt(r, offset, i);
    ExtendUnique(out, offset, n, r);
  }

  /** memcpy of `data` into `buf` at `at`. */
  method CopyIn(buf: array<byte>, at: nat, data: seq<byte>)
    requires at + |data| <= buf.Length
    modifies buf
    ensures forall i :: at <= i < at + |data| ==> buf[i] == data[i - at]
    ensures forall i :: 0 <= i < buf.Length && !(at <= i < at + |data|) ==> buf[i] == old(buf[i])
  {
    forall k | 0 <= k < |data| {
      buf[at + k] := data[k];
    }
  }

  //// The flat writer

  class ArrayWriter {
    const buf: array<byte>
    var op: nat
    var opLimit: nat

    ghost predicate Valid() reads this { op <= opLimit <= buf.Length && opLimit < TWO32 }

    ghost function Contents(): seq<byte>
      requires Valid()
      reads this, buf
    {
      buf[..op]
    }

    constructor (dst: array<byte>)
      ensures buf == dst && Valid() && Contents() == [] && opLimit == 0
    {
      buf, op, opLimit := dst, 0, 0;
    }

    method SetExpectedLength(len: nat)
      requires Valid() && op == 0 && len <= buf.Length && len < TWO32
      modifies this
      ensures Valid() && Contents() == [] && opLimit == len
    {
      opLimit := op + len;
    }

    method CheckLength() returns (ok: bool)
      requires Valid()
      ensures ok == (|Contents()| == opLimit)
    {
      ok := op == opLimit;
    }

    method Append(data: seq<byte>) returns (ok: bool)
      requires Valid()
      modifies this, buf
      ensures Valid() && opLimit == old(opLimit)
      ensures ok == (|old(Contents())| + |data| <= opLimit)
      ensures Contents() == old(Contents()) + if ok then data else []
    {
      var spaceLeft := opLimit - op;
      if spaceLeft < |data| { return false; }
      CopyIn(buf, op, data);
      op := op + |data|;
      assert Contents() == old(Contents()) + data;
      return true;
    }

    /** Copies sixteen bytes whatever `len` is, when there is room on both sides. */
    method TryFastAppend(avail: seq<byte>, len: nat) returns (ok: bool)
      requires Valid()
      modifies this, buf
      ensures Valid() && opLimit == old(opLimit)
      ensures ok ==> len <= 16 && 16 + MAX_TAG_LENGTH <= |avail|
      ensures Contents() == old(Contents()) + if ok then avail[..len] else []
    {
      var spaceLeft := opLimit - op;
      if len <= 16 && |avail| >= 16 + MAX_TAG_LENGTH && spaceLeft >= 16 {
        CopyIn(buf, op, avail[..16]);
        op := op + len;
        assert Contents() == old(Contents()) + avail[..len];
        return true;
      }
      return false;
    }

    method AppendFromSelf(offset: nat, len: nat) returns (ok: bool)
      requires Valid() && offset < TWO64
      modifies this, buf
      ensures Valid() && opLimit == old(opLimit)
      ensures ok == (0 < offset <= |old(Contents())| && |old(Contents())| + len <= opLimit)
      ensures Contents() == if ok then Extend(old(Contents()), offset, len) else old(Contents())
    {
      var opEnd := op + len;
      if op <= Pred64(offset) || opEnd > opLimit { return false; }
      op := IncrementalCopy(buf, op - offset, op, opEnd, opLimit);
      return true;
    }
  }

  //// The validator

  class Validator {
    var expected: nat
    var produced: nat
    ghost var contents: seq<byte>

    ghost predicate Valid() reads this { produced == |contents| <= expected < TWO32 }

    constructor ()
      ensures Valid() && contents == [] && expected == 0
    {
      expected, produced, contents := 0, 0, [];
    }

    method SetExpectedLength(len: nat)
      requires Valid() && contents == [] && len < TWO32
      modifies this
      ensures Valid() && contents == [] && expected == len
    {
      expected := len;
    }

    method CheckLength() returns (ok: bool)
      requires Valid()
      ensures ok == (|contents| == expected)
    {
      ok := expected == produced;
    }

    method Append(data: seq<byte>) returns (ok: bool)
      requires Valid()
      modifies this
      ensures expected == old(expected)
      ensures ok == (|old(contents)| + |data| <= expected)
      ensures ok ==> Valid() && contents == old(contents) + data
    {
      produced := produced + |data|;
      contents := contents + data;
      return produced <= expected;
    }

    method AppendFromSelf(offset: nat, len: nat) returns (ok: bool)
      requires Valid() && offset < TWO64
      modifies this
      ensures expected == old(expected)
      ensures ok == (0 < offset <= |old(contents)| && |old(contents)| + len <= expected)
      ensures ok ==> Valid() && contents == Extend(old(contents), offset, len)
    {
      if produced <= Pred64(offset) { return false; }
      produced := produced + len;
      contents := Extend(contents, offset, len);
      return produced <= expected;
    }
  }

  //// The scattered writer

  class ScatteredWriter {
    var blocks: seq<array<byte>>
    var expected: nat
    var fullSize: nat
    var opPtr: nat
    var opLimit: nat
    ghost var contents: seq<byte>

    /** Every block but the last has the full block size; the last is the current one. */
    ghost predicate Shape()
      reads this
    {
      && expected < TWO32
      && (forall i, j :: 0 <= i < j < |blocks| ==> blocks[i] != blocks[j])
      && opPtr <= opLimit <= BLOCK_SIZE
      && (blocks == [] ==> fullSize == opLimit == 0)
      && (forall i :: 0 <= i < |blocks| - 1 ==> blocks[i].Length == BLOCK_SIZE)
      && (blocks != [] ==>
            && fullSize == BLOCK_SIZE * (|blocks| - 1)
            && blocks[|blocks| - 1].Length == opLimit
            && fullSize + opLimit <= expected
            && (opLimit == BLOCK_SIZE || fullSize + opLimit == expected))
    }

    ghost predicate Valid()
      reads this, blocks
    {
      && Shape()
      && |contents| == fullSize + opPtr
      && (forall i :: 0 <= i < |contents| ==> Stored(i))
    }

    /** What handing out the blocks needs: it holds of a valid writer, and of one that has just
        refused an append, which counts its last block twice but has filled it. */
    ghost predicate Flushable()
      reads this, blocks
    {
      && (forall i :: 0 <= i < |blocks| - 1 ==> blocks[i].Length == BLOCK_SIZE)
      && |contents| <= expected
      && (if blocks == [] then contents == [] else
            && BLOCK_SIZE * (|blocks| - 1) <= |contents| <= BLOCK_SIZE * (|blocks| - 1) + blocks[|blocks| - 1].Length
            && |contents| <= fullSize + opPtr
            && (|contents| == fullSize + opPtr || |contents| == BLOCK_SIZE * (|blocks| - 1) + blocks[|blocks| - 1].Length))
      && (forall i :: 0 <= i < |contents| ==> Stored(i))
    }

    /** Byte i of the output is at its place in the blocks. */
    ghost predicate Stored(i: nat)
      requires i < |contents|
      reads this, blocks
    {
      && i / BLOCK_SIZE < |blocks|
      && i % BLOCK_SIZE < blocks[i / BLOCK_SIZE].Length
      && contents[i] == blocks[i / BLOCK_SIZE][i % BLOCK_SIZE]
    }

    constructor ()
      ensures Valid() && contents == [] && expected == 0 && blocks == []
    {
      blocks, expected, fullSize, opPtr, opLimit, contents := [], 0, 0, 0, 0, [];
    }

    method SetExpectedLength(len: nat)
      requires Valid() && blocks == [] && len < TWO32
      modifies this
      ensures Valid() && contents == [] && expected == len && blocks == []
    {
      expected := len;
    }

    method CheckLength() returns (ok: bool)
      requires Valid()
      ensures ok == (|contents| == expected)
    {
      ok := fullSize + opPtr == expected;
    }

    /** memcpy into the current block. */
    method Fill(data: seq<byte>)
      requires Valid() && opPtr + |data| <= opLimit
      modifies this`opPtr, this`contents, blocks
      ensures Valid() && opPtr == old(opPtr) + |data|
      ensures contents == old(contents) + data
    {
      if |data| > 0 {
        var base := blocks[|blocks| - 1];
        CopyIn(base, opPtr, data);
        opPtr := opPtr + |data|;
        contents := contents + data;
        forall i | 0 <= i < |contents|
          ensures Stored(i)
        {
          if i < |old(contents)| {
            assert old(Stored(i));
          }
        }
      }
    }

    /** A new block once the current one is full. */
    method NewBlock()
      requires Valid() && opPtr == opLimit && |contents| < expected
      modifies this`fullSize, this`opPtr, this`opLimit, this`blocks
      ensures Valid() && opPtr == 0 && 0 < opLimit == (if expected - fullSize < BLOCK_SIZE then expected - fullSize else BLOCK_SIZE)
      ensures fullSize == |contents|
      ensures |blocks| == |old(blocks)| + 1 && blocks[..|old(blocks)|] == old(blocks) && fresh(blocks[|old(blocks)|])
    {
      fullSize := fullSize + opPtr;
      var bsize := if expected - fullSize < BLOCK_SIZE then expected - fullSize else BLOCK_SIZE;
      var base := new byte[bsize];
      opPtr, opLimit := 0, bsize;
      blocks := blocks + [base];
      forall i | 0 <= i < |contents|
        ensures Stored(i)
      {
        assert old(Stored(i));
      }
    }

    method SlowAppend(data: seq<byte>) returns (ok: bool)
      requires Valid() && opPtr + |data| > opLimit
      modifies this, blocks
      ensures expected == old(expected)
      ensures ok == (|old(contents)| + |data| <= expected)
      ensures ok ==> Valid() && contents == old(contents) + data
      ensures !ok ==> Flushable() && old(contents) <= contents <= old(contents) + data
      ensures old(blocks) <= blocks && forall i :: |old(blocks)| <= i < |blocks| ==> fresh(blocks[i])
    {
      hide ScatteredWriter.Valid, ScatteredWriter.Flushable, ScatteredWriter.Stored;
      Sizes();
      var ip := data;
      while |ip| > opLimit - opPtr
        invariant Valid() && expected == old(expected) && opPtr <= opLimit && fullSize + opPtr == |contents| <= expected
        invariant contents + ip == old(contents) + data && old(contents) <= contents
        invariant old(blocks) <= blocks && forall i :: |old(blocks)| <= i < |blocks| ==> fresh(blocks[i])
        decreases |ip|, if opPtr < opLimit then 0 else 1
      {
        var avail := opLimit - opPtr;
        ghost var was := contents;
        Fill(ip[..avail]);
        assert was + ip == contents + ip[avail..];
        ip := ip[avail..];
        if fullSize + opPtr + |ip| > expected {
          Refuse(data, ip, old(contents));
          return false;
        }
        NewBlock();
      }
      Fill(ip);
      Sizes();
      return true;
    }

    lemma Keeps()
      requires Valid()
      ensures Flushable()
    {
    }

    lemma Sizes()
      requires Valid()
      ensures opPtr <= opLimit && fullSize + opPtr == |contents| <= expected
    {
    }

    /** Counts the full block although no new one is made. */
    method Refuse(ghost data: seq<byte>, ghost ip: seq<byte>, ghost was: seq<byte>)
      requires Valid() && opPtr == opLimit && was <= contents && contents + ip == was + data
      modifies this`fullSize
      ensures Flushable() && was <= contents <= was + data
    {
      assert contents == (was + data)[..|contents|];
      fullSize := fullSize + opPtr;
      forall i | 0 <= i < |contents| ensures Stored(i) { assert old(Stored(i)); }
    }

    method Append(data: seq<byte>) returns (ok: bool)
      requires Valid()
      modifies this, blocks
      ensures expected == old(expected)
      ensures ok == (|old(contents)| + |data| <= expected)
      ensures ok ==> Valid() && contents == old(contents) + data
      ensures !ok ==> Flushable() && old(contents) <= contents <= old(contents) + data
      ensures old(blocks) <= blocks && forall i :: |old(blocks)| <= i < |blocks| ==> fresh(blocks[i])
    {
      var avail := opLimit - opPtr;
      if |data| <= avail {
        Fill(data);
        return true;
      }
      ok := SlowAppend(data);
    }

    method TryFastAppend(avail: seq<byte>, len: nat) returns (ok: bool)
      requires Valid()
      modifies this, blocks
      ensures Valid() && expected == old(expected) && blocks == old(blocks)
      ensures ok ==> len <= 16 && 16 + MAX_TAG_LENGTH <= |avail|
      ensures contents == old(contents) + if ok then avail[..len] else []
    {
      var spaceLeft := opLimit - opPtr;
      if len <= 16 && |avail| >= 16 + MAX_TAG_LENGTH && spaceLeft >= 16 {
        var base := blocks[|blocks| - 1];
        CopyIn(base, opPtr, avail[..16]);
        assert base[..opPtr] == old(base[..opPtr]);
        KeepsStored(base);
        Advance(avail[..len]);
        return true;
      }
      return false;
    }

    /** Writing past opPtr in the current block leaves the output stored. */
    twostate lemma KeepsStored(base: array<byte>)
      requires old(Valid()) && blocks != [] && unchanged(this) && base == blocks[|blocks| - 1]
      requires forall k :: 0 <= k < |blocks| - 1 ==> unchanged(blocks[k])
      requires base[..opPtr] == old(base[..opPtr])
      ensures Valid()
    {
      forall i | 0 <= i < |contents|
        ensures Stored(i)
      {
        assert old(Stored(i));
        if i >= fullSize {
          assert base[..opPtr][i - fullSize] == old(base[..opPtr])[i - fullSize];
        }
      }
    }

    /** Moves past bytes already written to the current block. */
    method Advance(data: seq<byte>)
      requires Valid() && opPtr + |data| <= opLimit && blocks != []
      requires forall j :: 0 <= j < |data| ==> blocks[|blocks| - 1][opPtr + j] == data[j]
      modifies this`opPtr, this`contents
      ensures Valid() && opPtr == old(opPtr) + |data|
      ensures contents == old(contents) + data
    {
      opPtr := opPtr + |data|;
      contents := contents + data;
      forall i | 0 <= i < |contents|
        ensures Stored(i)
      {
        if i < |old(contents)| {
          assert old(Stored(i));
        }
      }
    }

    method SlowAppendFromSelf(offset: nat, len: nat) returns (ok: bool)
      requires Valid() && offset < TWO64
      modifies this, blocks
      ensures expected == old(expected)
      ensures ok == (0 < offset <= |old(contents)| && |old(contents)| + len <= expected)
      ensures ok ==> Valid() && contents == Extend(old(contents), offset, len)
      ensures !ok ==> Flushable() && contents == old(contents)
      ensures old(blocks) <= blocks && forall i :: |old(blocks)| <= i < |blocks| ==> fresh(blocks[i])
    {
      Keeps();
      var cur := fullSize + opPtr;
      if Pred64(offset) >= cur { return false; }
      if expected - cur < len { return false; }
      CopyBytesFrom(cur - offset, offset, len);
      return true;
    }

    /** Appends byte by byte, each read back from the blocks. */
    method CopyBytesFrom(from: nat, offset: nat, len: nat)
      requires Valid() && 0 < offset <= |contents| && |contents| + len <= expected && from == |contents| - offset
      modifies this, blocks
      ensures Valid() && expected == old(expected) && contents == Extend(old(contents), offset, len)
      ensures old(blocks) <= blocks && forall i :: |old(blocks)| <= i < |blocks| ==> fresh(blocks[i])
    {
      hide ScatteredWriter.Valid;
      var src: nat, left: nat := from, len;
      while left > 0
        invariant left <= len && expected == old(expected)
        invariant Valid() && contents == Extend(old(contents), offset, len - left)
        invariant src == |contents| - offset
        invariant old(blocks) <= blocks && forall i :: |old(blocks)| <= i < |blocks| ==> fresh(blocks[i])
      {
        left := left - 1;
        CopyByte(src);
        src := src + 1;
      }
    }

    method CopyByte(src: nat)
      requires Valid() && src < |contents| < expected
      modifies this, blocks
      ensures Valid() && expected == old(expected)
      ensures contents == old(contents) + [old(contents)[src]]
      ensures old(blocks) <= blocks && forall i :: |old(blocks)| <= i < |blocks| ==> fresh(blocks[i])
    {
      assert Stored(src);
      var c := blocks[src / BLOCK_SIZE][src % BLOCK_SIZE];
      var _ := Append([c]);
    }

    method AppendFromSelf(offset: nat, len: nat) returns (ok: bool)
      requires Valid() && offset < TWO64
      modifies this, blocks
      ensures expected == old(expected)
      ensures ok == (0 < offset <= |old(contents)| && |old(contents)| + len <= expected)
      ensures ok ==> Valid() && contents == Extend(old(contents), offset, len)
      ensures !ok ==> Flushable() && contents == old(contents)
      ensures old(blocks) <= blocks && forall i :: |old(blocks)| <= i < |blocks| ==> fresh(blocks[i])
    {
      Keeps();
      var opEnd := opPtr + len;
      if Pred64(offset) < opPtr && opEnd <= opLimit {
        CopyWithinBlock(offset, len);
        return true;
      }
      ok := SlowAppendFromSelf(offset, len);
    }

    /** Source and destination both in the current block. */
    method CopyWithinBlock(offset: nat, len: nat)
      requires Valid() && 0 < offset <= opPtr && opPtr + len <= opLimit
      modifies this, blocks
      ensures Valid() && expected == old(expected) && blocks == old(blocks)
      ensures contents == Extend(old(contents), offset, len)
    {
      var base := blocks[|blocks| - 1];
      CurrentBlock(base);
      ghost var before := base[..opPtr];
      var end := IncrementalCopy(base, opPtr - offset, opPtr, opPtr + len, opLimit);
      ghost var after := base[..end];
      ExtendPrefix(before, offset, len);
      assert base[..opPtr] == after[..opPtr];
      KeepsStored(base);
      BlockTail(contents, before, after, offset, len);
      ghost var was := contents;
      AdvanceTo(base, end);
      assert base[old(opPtr)..end] == after[|before|..];
    }

    method AdvanceTo(base: array<byte>, end: nat)
      requires Valid() && blocks != [] && base == blocks[|blocks| - 1] && opPtr <= end <= opLimit
      modifies this`opPtr, this`contents
      ensures Valid() && opPtr == end
      ensures contents == old(contents) + base[old(opPtr)..end]
    {
      Advance(base[opPtr..end]);
    }

    /** The end of the output is the written part of the current block. */
    lemma CurrentBlock(base: array<byte>)
      requires Valid() && blocks != [] && base == blocks[|blocks| - 1]
      ensures contents[fullSize..] == base[..opPtr]
    {
      forall j | 0 <= j < opPtr
        ensures contents[fullSize..][j] == base[..opPtr][j]
      {
        assert Stored(fullSize + j);
      }
    }

    /** Hands the written part of every block to the sink. */
    method Flush() returns (sink: seq<byte>)
      requires Flushable()
      ensures sink == contents
    {
      var size := fullSize + opPtr;
      sink := [];
      for i := 0 to |blocks|
        invariant |sink| == (if i < |blocks| then BLOCK_SIZE * i else |contents|) && sink == contents[..|sink|]
      {
        var blockSize := if blocks[i].Length < size - |sink| then blocks[i].Length else size - |sink|;
        forall j | 0 <= j < blockSize
          ensures blocks[i][j] == contents[|sink| + j]
        {
          assert Stored(|sink| + j);
        }
        sink := sink + blocks[i][..blockSize];
      }
    }
  }

  /** A copy inside a suffix of the output is the same copy of the whole output. */
  lemma {:induction false} ExtendShift(pre: seq<byte>, out: seq<byte>, offset: nat, n: nat)
    requires 0 < offset <= |out|
    ensures Extend(pre + out, offset, n) == pre + Extend(out, offset, n)
  {
    if n > 0 {
      ExtendShift(pre, out, offset, n - 1);
      var p := Extend(out, offset, n - 1);
      Seqs.Assoc(pre, p, [p[|p| - offset]]);
    }
  }

  lemma BlockTail(contents: seq<byte>, before: seq<byte>, after: seq<byte>, offset: nat, len: nat)
    requires 0 < offset <= |before| <= |contents| && contents[|contents| - |before|..] == before
    requires after == Extend(before, offset, len)
    ensures contents + after[|before|..] == Extend(contents, offset, len)
  {
    var pre := contents[..|contents| - |before|];
    Seqs.SplitAt(contents, |contents| - |before|);
    ExtendShift(pre, before, offset, len);
    ExtendPrefix(before, offset, len);
    Seqs.SplitAt(after, |before|);
    Seqs.Assoc(pre, before, after[|before|..]);
  }
}
